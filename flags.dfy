/**
 * Flag image URLs on the flagcdn.com host (src/api/countries.ts): the
 * country code is lower-cased; the SVG form has no size, the PNG form puts
 * the width directory first.
 */
module Flags {
  import opened JsString

  datatype Format = Png | Svg

  /** The widths flagcdn.com serves PNG flags at. */
  datatype Size = W20 | W40 | W80 | W160 | W320 | W640 | W1280 | W2560

  function SizeName(size: Size): (r: string)
    ensures |r| >= 3 && r[0] == 'w' && forall k :: 1 <= k < |r| ==> IsDigit(r[k])
  {
    match size
    case W20 => "w20"
    case W40 => "w40"
    case W80 => "w80"
    case W160 => "w160"
    case W320 => "w320"
    case W640 => "w640"
    case W1280 => "w1280"
    case W2560 => "w2560"
  }

  const FlagHost := "https://flagcdn.com/"

  /** `getFlagUrlByCountryCode(countryCode, format = "png", size = "w40")` */
  function FlagUrl(countryCode: string, format: Format := Png, size: Size := W40): string
  {
    var code := ToLower(countryCode);
    if format == Svg then FlagHost + code + ".svg"
    else FlagHost + SizeName(size) + "/" + code + ".png"
  }

  /** Two spellings of a code that agree up to ASCII case give the same URL. */
  lemma FlagUrlIgnoresCase(a: string, b: string, format: Format, size: Size)
    requires EqualsIgnoreCase(a, b)
    ensures FlagUrl(a, format, size) == FlagUrl(b, format, size)
  {
  }

  /** The SVG URL is the same whatever size is asked for. */
  lemma SvgIgnoresSize(code: string, s1: Size, s2: Size)
    ensures FlagUrl(code, Svg, s1) == FlagUrl(code, Svg, s2)
    ensures FlagUrl(code, Svg, s1) == FlagHost + ToLower(code) + ".svg"
  {
  }

  /** The documented example, and the defaults give the same URL. */
  lemma DocumentedExample()
    ensures FlagUrl("us", Png, W40) == "https://flagcdn.com/w40/us.png"
    ensures FlagUrl("us") == FlagUrl("us", Png, W40)
    ensures FlagUrl("US") == FlagUrl("us")
  {
    assert ToLower("us") == "us";
    assert ToLower("US") == "us";
  }

  /** Distinct sizes have distinct directory names. */
  lemma SizeNameInjective(s1: Size, s2: Size)
    requires SizeName(s1) == SizeName(s2)
    ensures s1 == s2
  {
  }

  /** Two strings without a slash, each followed by one, split the same way. */
  lemma {:induction false} SameFirstSegment(n1: string, x: string, n2: string, y: string)
    requires forall k :: 0 <= k < |n1| ==> n1[k] != '/'
    requires forall k :: 0 <= k < |n2| ==> n2[k] != '/'
    requires n1 + "/" + x == n2 + "/" + y
    ensures n1 == n2 && x == y
  {
    var u := n1 + "/" + x;
    assert u[|n1|] == '/' && u[|n2|] == '/';
    assert n1 == u[..|n1|] && n2 == u[..|n2|];
    assert x == u[|n1| + 1..] && y == u[|n2| + 1..];
  }

  lemma AfterHost(x: string, y: string)
    requires FlagHost + x == FlagHost + y
    ensures x == y
  {
    assert x == (FlagHost + x)[|FlagHost|..];
    assert y == (FlagHost + y)[|FlagHost|..];
  }

  lemma SameFormat(a: string, f1: Format, s1: Size, b: string, f2: Format, s2: Size)
    requires FlagUrl(a, f1, s1) == FlagUrl(b, f2, s2)
    ensures f1 == f2
  {
    var u := FlagUrl(a, f1, s1);
    assert u[|u| - 3] == (if f1 == Svg then 's' else 'p');
    assert u[|u| - 3] == (if f2 == Svg then 's' else 'p');
  }

  lemma SameCodeBeforeSuffix(c1: string, c2: string, suffix: string)
    requires c1 + suffix == c2 + suffix
    ensures c1 == c2
  {
    assert c1 == (c1 + suffix)[..|c1|];
    assert c2 == (c2 + suffix)[..|c2|];
  }

  lemma SvgUrlDetermines(c1: string, c2: string)
    requires FlagHost + c1 + ".svg" == FlagHost + c2 + ".svg"
    ensures c1 == c2
  {
    assert FlagHost + c1 + ".svg" == FlagHost + (c1 + ".svg");
    assert FlagHost + c2 + ".svg" == FlagHost + (c2 + ".svg");
    AfterHost(c1 + ".svg", c2 + ".svg");
    SameCodeBeforeSuffix(c1, c2, ".svg");
  }

  lemma PngUrlDetermines(n1: string, c1: string, n2: string, c2: string)
    requires forall k :: 0 <= k < |n1| ==> n1[k] != '/'
    requires forall k :: 0 <= k < |n2| ==> n2[k] != '/'
    requires FlagHost + n1 + "/" + c1 + ".png" == FlagHost + n2 + "/" + c2 + ".png"
    ensures n1 == n2 && c1 == c2
  {
    assert FlagHost + n1 + "/" + c1 + ".png" == FlagHost + (n1 + "/" + (c1 + ".png"));
    assert FlagHost + n2 + "/" + c2 + ".png" == FlagHost + (n2 + "/" + (c2 + ".png"));
    AfterHost(n1 + "/" + (c1 + ".png"), n2 + "/" + (c2 + ".png"));
    SameFirstSegment(n1, c1 + ".png", n2, c2 + ".png");
    SameCodeBeforeSuffix(c1, c2, ".png");
  }

  /**
   * The URL determines its inputs: the format, the lower-cased code, and
   * for PNG also the size.
   */
  lemma FlagUrlDetermines(a: string, f1: Format, s1: Size, b: string, f2: Format, s2: Size)
    requires FlagUrl(a, f1, s1) == FlagUrl(b, f2, s2)
    ensures f1 == f2 && ToLower(a) == ToLower(b)
    ensures f1 == Png ==> s1 == s2
  {
    SameFormat(a, f1, s1, b, f2, s2);
    if f1 == Svg {
      SvgUrlDetermines(ToLower(a), ToLower(b));
    } else {
      PngUrlDetermines(SizeName(s1), ToLower(a), SizeName(s2), ToLower(b));
      SizeNameInjective(s1, s2);
    }
  }
}
