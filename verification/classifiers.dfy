/** The small pure classifiers the record handlers use: the character-set name
    of a header CHAR line, the standard event tags, the split of a NAME line into
    given name and surname, and whether a GEDC VERS value reads as a nonzero number. */
module Classifiers {
  import opened Common
  import opened Tokenizer
  import opened GedcomModel

  /** The spelling of each recognised character set in a CHAR line. */
  function EncodingName(c: CharSet): string
  {
    match c
    case Utf8 => "UTF-8"
    case Ascii => "ASCII"
    case Unicode => "UNICODE"
    case Ansel => "ANSEL"
  }

  /** parseEncoding: exactly the four names `UTF-8`, `ASCII`, `UNICODE`, `ANSEL` are
      accepted, each giving the character set it spells; any other text is a header error. */
  function ParseEncoding(text: string): (r: Result<CharSet, ErrorCode>)
    ensures r.Success? <==> text in {"UTF-8", "ASCII", "UNICODE", "ANSEL"}
    ensures r.Success? ==> EncodingName(r.value) == text
    ensures r.Failure? ==> r.error == InvHeader
  {
    if text == "UTF-8" then Success(Utf8)
    else if text == "ASCII" then Success(Ascii)
    else if text == "UNICODE" then Success(Unicode)
    else if text == "ANSEL" then Success(Ansel)
    else Failure(InvHeader)
  }

  /** Parsing the name of a character set gives that character set back. */
  lemma ParseEncodingRoundTrip(c: CharSet)
    ensures ParseEncoding(EncodingName(c)) == Success(c)
  {
  }

  const EventTags: seq<string> := ["BIRT", "DEAT", "MARR", "CHR", "BURI"]

  /** The scan of the tag table from entry `i` on. */
  function TagFrom(tag: string, i: nat): (r: bool)
    requires i <= |EventTags|
    ensures r <==> exists j :: i <= j < |EventTags| && EventTags[j] == tag
    decreases |EventTags| - i
  {
    i < |EventTags| && (EventTags[i] == tag || TagFrom(tag, i + 1))
  }

  /** isStandardEvent: the tag is one of the five standard event tags. */
  function IsStandardEvent(tag: string): (r: bool)
    ensures r <==> tag in {"BIRT", "DEAT", "MARR", "CHR", "BURI"}
  {
    assert EventTags[0] == "BIRT" && EventTags[1] == "DEAT" && EventTags[2] == "MARR"
        && EventTags[3] == "CHR" && EventTags[4] == "BURI";
    TagFrom(tag, 0)
  }

  /** The surname token with its first and last character removed (the slashes of
      `/Surname/`). A one-character token makes the C code copy a negative length;
      the model gives the empty surname there. */
  function StripDelimiters(token: string): string
  {
    if |token| >= 2 then token[1..|token| - 1] else ""
  }

  /** parseNames: the given name and surname of a NAME line. No word 2: both empty.
      Word 2 starting with `/`: no given name and that token, slashes kept, as surname.
      Otherwise word 2 is the given name and word 3 minus its delimiters the surname. */
  function ParseNames(line: string): (r: (string, string))
    ensures NoSpace(r.0)
    ensures GetWord(line, 2).0.None? ==> r == ("", "")
  {
    match GetWord(line, 2).0
    case None => ("", "")
    case Some(w) =>
      if |w| > 0 && w[0] == '/' then ("", w)
      else
        match GetWord(line, 3).0
        case None => (w, "")
        case Some(s) => (w, StripDelimiters(s))
  }

  /** parseNames in terms of the words of the line. Word 2 of getWord is `ws[g]`, where
      `g` is 2, or 1 when the line starts with whitespace (getWord then counts an empty
      word 0). No word 2 gives two empty names; a word 2 starting with `/` is the
      surname, slashes kept, with no given name; otherwise word 2 is the given name, and
      the word after it, if any, minus its delimiters is the surname. */
  lemma ParseNamesByWords(line: string)
    ensures var ws := Words(line);
            var g := if |line| > 0 && IsSpace(line[0]) then 1 else 2;
            && ProperWords(ws)
            && (|ws| <= g ==> ParseNames(line) == ("", ""))
            && (|ws| > g && ws[g][0] == '/' ==> ParseNames(line) == ("", ws[g]))
            && (|ws| == g + 1 && ws[g][0] != '/' ==> ParseNames(line) == (ws[g], ""))
            && (|ws| > g + 1 && ws[g][0] != '/' ==> ParseNames(line) == (ws[g], StripDelimiters(ws[g + 1])))
  {
    WordsFromProper(line, 0);
    GetWordMatchesWords(line, 1);
    GetWordMatchesWords(line, 2);
    GetWordMatchesWords(line, 3);
  }

  /** The surname token `/Surname/` of a NAME line is one word, and stripping its
      delimiters gives the surname back. */
  lemma SurnameToken(surname: string)
    requires NoSpace(surname)
    ensures NoSpace("/" + surname + "/")
    ensures StripDelimiters("/" + surname + "/") == surname
  {
    var token := "/" + surname + "/";
    forall i | 0 <= i < |token| ensures !IsSpace(token[i]) {
      if 0 < i < |token| - 1 {
        assert token[i] == surname[i - 1];
      }
    }
    assert token[1..|token| - 1] == surname;
  }

  /** A NAME line written the GEDCOM way, `1 NAME Given /Surname/`, is split back into
      its given name and surname. */
  lemma ParseNamesOfNameLine(given: string, surname: string)
    requires |given| > 0 && NoSpace(given) && given[0] != '/'
    requires NoSpace(surname)
    ensures ParseNames(Join(["1", "NAME", given, "/" + surname + "/"])) == (given, surname)
  {
    SurnameToken(surname);
    var full := ["1", "NAME", given, "/" + surname + "/"];
    assert ProperWords(full);
    GetWordOfJoin(full, 2);
    GetWordOfJoin(full, 3);
  }

  /** `1 NAME /Surname/` keeps the whole token, slashes included, as surname. */
  lemma ParseNamesOfSurnameOnly(surname: string)
    requires NoSpace(surname)
    ensures ParseNames(Join(["1", "NAME", "/" + surname + "/"])) == ("", "/" + surname + "/")
  {
    SurnameToken(surname);
    var bare := ["1", "NAME", "/" + surname + "/"];
    assert ProperWords(bare);
    GetWordOfJoin(bare, 2);
  }

  /** `1 NAME Given` has a given name and an empty surname. */
  lemma ParseNamesOfGivenOnly(given: string)
    requires |given| > 0 && NoSpace(given) && given[0] != '/'
    ensures ParseNames(Join(["1", "NAME", given])) == (given, "")
  {
    var words := ["1", "NAME", given];
    assert ProperWords(words);
    GetWordOfJoin(words, 2);
    GetWordOfJoin(words, 3);
  }

  /** A NAME line without value gives two empty names. */
  lemma ParseNamesOfBareName()
    ensures ParseNames(Join(["1", "NAME"])) == ("", "")
  {
    var empty := ["1", "NAME"];
    assert ProperWords(empty);
    GetWordOfJoin(empty, 2);
  }

  // ---------------------------------------------------------------------
  // The GEDC VERS value

  /** Some digit of the leading digit run of `s` is nonzero. */
  function LeadingDigitsNonzero(s: string): bool
  {
    |s| > 0 && IsDigit(s[0]) && (s[0] != '0' || LeadingDigitsNonzero(s[1..]))
  }

  function LeadingDigitCount(s: string): (n: nat)
    ensures n <= |s|
  {
    if |s| > 0 && IsDigit(s[0]) then 1 + LeadingDigitCount(s[1..]) else 0
  }

  /** Whether `atof(text)` is nonzero, for decimal text: after an optional sign, the
      digits before and after an optional decimal point are not all zero. */
  function NonzeroDecimal(text: string): bool
  {
    var p := if |text| > 0 && (text[0] == '+' || text[0] == '-') then 1 else 0;
    var body := text[p..];
    var n := LeadingDigitCount(body);
    LeadingDigitsNonzero(body) || (n < |body| && body[n] == '.' && LeadingDigitsNonzero(body[n + 1..]))
  }

  lemma {:induction false} LeadingDigitsOfNumeral(n: nat)
    ensures LeadingDigitsNonzero(NatToString(n)) <==> n != 0
    decreases n
  {
    var s := NatToString(n);
    if n >= 10 {
      var hi := NatToString(n / 10);
      LeadingDigitsOfNumeral(n / 10);
      LeadingDigitsSnoc(hi, s[|s| - 1]);
      assert s == hi + [s[|s| - 1]];
    }
  }

  lemma {:induction false} LeadingDigitsSnoc(a: string, c: char)
    requires AllDigits(a) && IsDigit(c) && |a| > 0
    ensures LeadingDigitsNonzero(a + [c]) <==> LeadingDigitsNonzero(a) || c != '0'
  {
    assert (a + [c])[0] == a[0];
    if |a| == 1 {
      assert (a + [c])[1..] == [c];
      assert ([c])[1..] == [];
      assert a[1..] == [];
    } else {
      assert (a + [c])[1..] == a[1..] + [c];
      LeadingDigitsSnoc(a[1..], c);
    }
  }

  /** A version written as `major.minor` reads as nonzero exactly when one of the two
      numbers is nonzero: `5.5` is a usable version, `0.0` is not. */
  lemma NonzeroDecimalOfVersion(major: nat, minor: nat)
    ensures NonzeroDecimal(NatToString(major) + "." + NatToString(minor)) <==> major != 0 || minor != 0
  {
    var a := NatToString(major);
    var b := NatToString(minor);
    var text := a + "." + b;
    assert text[0] == a[0];
    assert text[0..] == text;
    LeadingDigitCountOf(a, "." + b);
    assert text == a + ("." + b);
    LeadingDigitsStops(a, "." + b);
    assert text[|a| + 1..] == b;
    LeadingDigitsOfNumeral(major);
    LeadingDigitsOfNumeral(minor);
  }

  lemma {:induction false} LeadingDigitCountOf(a: string, rest: string)
    requires AllDigits(a)
    requires |rest| == 0 || !IsDigit(rest[0])
    ensures LeadingDigitCount(a + rest) == |a|
  {
    if |a| > 0 {
      assert (a + rest)[1..] == a[1..] + rest;
      LeadingDigitCountOf(a[1..], rest);
    } else {
      assert a + rest == rest;
    }
  }

  lemma {:induction false} LeadingDigitsStops(a: string, rest: string)
    requires AllDigits(a)
    requires |rest| == 0 || !IsDigit(rest[0])
    ensures LeadingDigitsNonzero(a + rest) == LeadingDigitsNonzero(a)
  {
    if |a| > 0 {
      assert (a + rest)[1..] == a[1..] + rest;
      LeadingDigitsStops(a[1..], rest);
    } else {
      assert a + rest == rest;
    }
  }
}
