/** `Country` (atletiek-nu-api/src/components/country.rs): the twelve country codes
    the site uses, the case-insensitive parser and the printer. */
module Country {
  import opened Wrappers

  datatype Country = BE | BQ | CW | FR | DE | IL | NL | SX | ZA | CH | GB | US

  /** `char::to_uppercase` as far as it can produce one of the codes: ASCII letters,
      the dotless `ı` (to `I`) and the long `ſ` (to `S`). Every other character is
      kept. No other single character upper-cases to a capital ASCII letter.
      The characters whose capital is longer than one character either give
      two ASCII letters (`ß`, `ﬀ`, `ﬁ`, `ﬂ`, `ﬅ`, `ﬆ` to `SS`, `FF`, `FI`, `FL`,
      `ST`), none of them a code, or a letter with a non-ASCII mark or three
      letters; next to any other character they give more than two. So keeping
      them as they are accepts and rejects the same texts. */
  function UpperChar(c: char): char {
    if 'a' <= c <= 'z' then ((c as int) - 32) as char
    else if c == 'ı' then 'I'
    else if c == 'ſ' then 'S'
    else c
  }

  /** `str::to_uppercase`, one character at a time. */
  function Upper(s: string): (r: string)
    ensures |r| == |s|
    ensures forall i :: 0 <= i < |s| ==> r[i] == UpperChar(s[i])
  {
    seq(|s|, i requires 0 <= i < |s| => UpperChar(s[i]))
  }

  /** Upper-casing leaves no small ASCII letter, maps each to its capital,
      changes nothing the second time, and leaves every code as it is. */
  lemma UpperFolds(s: string, c: Country)
    ensures var r := Upper(s);
            && (forall i :: 0 <= i < |r| ==> !('a' <= r[i] <= 'z'))
            && (forall i :: 0 <= i < |s| && 'a' <= s[i] <= 'z' ==> 'A' <= r[i] <= 'Z' && s[i] as int - r[i] as int == 32)
            && Upper(r) == r
    ensures Upper(ToStr(c)) == ToStr(c)
  {
    var r := Upper(s);
    assert forall i :: 0 <= i < |r| ==> Upper(r)[i] == r[i];
    var t := ToStr(c);
    assert forall i :: 0 <= i < |t| ==> Upper(t)[i] == t[i];
  }

  /** `Country::to_str`: the two-letter code, in capitals. */
  function ToStr(c: Country): (r: string)
    ensures |r| == 2 && 'A' <= r[0] <= 'Z' && 'A' <= r[1] <= 'Z'
  {
    match c
    case BE => "BE"
    case BQ => "BQ"
    case CW => "CW"
    case FR => "FR"
    case DE => "DE"
    case IL => "IL"
    case NL => "NL"
    case SX => "SX"
    case ZA => "ZA"
    case CH => "CH"
    case GB => "GB"
    case US => "US"
  }

  /** `Country::parse`: the code is compared after upper-casing, and the empty text
      stands for the Netherlands. */
  function Parse(s: string): (r: Result<Country>)
    ensures r.Ok? <==> (s == [] || exists c: Country :: ToStr(c) == Upper(s))
    ensures s == [] ==> r == Ok(NL)
    ensures r.Ok? && s != [] ==> ToStr(r.value) == Upper(s)
  {
    var u := Upper(s);
    if u == "BE" then assert ToStr(BE) == u; Ok(BE)
    else if u == "BQ" then assert ToStr(BQ) == u; Ok(BQ)
    else if u == "CW" then assert ToStr(CW) == u; Ok(CW)
    else if u == "FR" then assert ToStr(FR) == u; Ok(FR)
    else if u == "DE" then assert ToStr(DE) == u; Ok(DE)
    else if u == "IL" then assert ToStr(IL) == u; Ok(IL)
    else if u == "NL" then assert ToStr(NL) == u; Ok(NL)
    else if u == "SX" then assert ToStr(SX) == u; Ok(SX)
    else if u == "ZA" then assert ToStr(ZA) == u; Ok(ZA)
    else if u == "CH" then assert ToStr(CH) == u; Ok(CH)
    else if u == "GB" then assert ToStr(GB) == u; Ok(GB)
    else if u == "US" then assert ToStr(US) == u; Ok(US)
    else if u == "" then Ok(NL)
    else Err("country abbriviation (" + s + "): Not in available countries")
  }

  /** Printing then parsing gives the country back. */
  lemma ParseToStr(c: Country)
    ensures Parse(ToStr(c)) == Ok(c)
  {
    var s := ToStr(c);
    assert Upper(s) == s by {
      assert forall i :: 0 <= i < |s| ==> UpperChar(s[i]) == s[i];
    }
  }

  /** Different countries print differently. */
  lemma ToStrInjective(a: Country, b: Country)
    requires ToStr(a) == ToStr(b)
    ensures a == b
  {
    ParseToStr(a);
    ParseToStr(b);
  }

  /** Parsing depends only on the upper-cased text: texts that differ only in
      case are both accepted, as the same country, or both refused. */
  lemma ParseCaseInsensitive(s: string, t: string)
    requires Upper(s) == Upper(t)
    ensures Parse(s).Ok? == Parse(t).Ok?
    ensures Parse(s).Ok? ==> Parse(s).value == Parse(t).value
  {
    assert s == [] <==> t == [];
  }

  /** Lower-case codes are accepted. */
  lemma ParseLowerCase()
    ensures Parse("nl") == Ok(NL) && Parse("Be") == Ok(BE) && Parse("us") == Ok(US)
  {
    assert Upper("nl") == ToStr(NL);
    ParseOfUpper("nl", NL);
    assert Upper("Be") == ToStr(BE);
    ParseOfUpper("Be", BE);
    assert Upper("us") == ToStr(US);
    ParseOfUpper("us", US);
  }

  /** A text whose capitals are a country's code is that country. */
  lemma ParseOfUpper(s: string, c: Country)
    requires Upper(s) == ToStr(c)
    ensures Parse(s) == Ok(c)
  {
    assert s != [];
    ToStrInjective(Parse(s).value, c);
  }
}
