/**
 The input normalisers and validators shared by the employee commands:
 e-mail normalisation, the `yyyy-MM-dd` shape check and comma-separated
 skill parsing.
 */
module Validation {
  import opened JavaString
  import opened LexOrder

  // ---------------------------------------------------------------- e-mail

  /** The lookup and storage form of an e-mail: `trim()` then `toLowerCase()`. */
  function NormalizeEmail(raw: string): string {
    ToLower(Trim(raw))
  }

  /** The form every normalised e-mail has. */
  predicate IsNormalizedEmail(s: string) {
    HasCleanEnds(s) && IsLowerCased(s)
  }

  /** Normalising yields a normalised e-mail, and leaves exactly the normalised
      e-mails unchanged; hence normalising twice is normalising once. */
  lemma NormalizeEmailFacts(raw: string)
    ensures IsNormalizedEmail(NormalizeEmail(raw))
    ensures NormalizeEmail(raw) == raw <==> IsNormalizedEmail(raw)
    ensures NormalizeEmail(NormalizeEmail(raw)) == NormalizeEmail(raw)
  {
    ToLowerFacts(Trim(raw));
    ToLowerFacts(raw);
    var n := NormalizeEmail(raw);
    ToLowerFacts(n);
    assert Trim(n) == n;
  }

  /** `" A@B.COM "` normalises to `"a@b.com"`. The literals come in through
      `requires` so that the solver does not unfold the string functions on them
      in every proof that mentions the lemma. */
  lemma NormalizeEmailExample(raw: string, clean: string)
    requires raw == " A@B.COM " && clean == "a@b.com"
    ensures NormalizeEmail(raw) == clean
    ensures NormalizeEmail(clean) == clean
  {
    assert NormalizeEmail(clean) == clean by {
      NormalizeEmailFacts(clean);
      assert IsLowerCased(clean);
    }
    assert NormalizeEmail(raw) == clean by {
      var upper := TrimExample(raw);
      LowerExample(upper, clean);
    }
  }

  lemma TrimExample(raw: string) returns (upper: string)
    requires raw == " A@B.COM "
    ensures upper == "A@B.COM" && Trim(raw) == upper
  {
    upper := raw[1..][..7];
    assert TrimStart(raw) == raw[1..];
    assert TrimEnd(raw[1..]) == upper;
  }

  lemma LowerExample(upper: string, clean: string)
    requires upper == "A@B.COM" && clean == "a@b.com"
    ensures ToLower(upper) == clean
  {
    var u := ToLower(upper);
    assert u[0] == 'a' && u[1] == '@' && u[2] == 'b' && u[3] == '.';
    assert u[4] == 'c' && u[5] == 'o' && u[6] == 'm';
  }

  // ---------------------------------------------------------- date shape

  /** `\d` in a Java regular expression: an ASCII digit. */
  predicate IsDigit(c: char) {
    '0' <= c <= '9'
  }

  /** `matches("\\d{4}-\\d{2}-\\d{2}")`: the whole string is four digits, a dash,
      two digits, a dash, two digits. No calendar check is made. */
  predicate IsDateShape(s: string) {
    && |s| == 10
    && (forall i | 0 <= i < 10 && i != 4 && i != 7 :: IsDigit(s[i]))
    && s[4] == '-' && s[7] == '-'
  }

  lemma DateShapeIsTrimmed(s: string)
    requires IsDateShape(s)
    ensures Trim(s) == s
  {
  }

  /** A calendar-invalid date passes the shape check. */
  lemma CalendarInvalidDateAccepted()
    ensures IsDateShape("2023-02-30")
    ensures Year("2023-02-30") == 2023 && Month("2023-02-30") == 2 && Day("2023-02-30") == 30
  {
    var s := "2023-02-30";
    assert s[..4] == "2023" && s[5..7] == "02" && s[8..] == "30";
    assert "2023"[..3] == "202" && "202"[..2] == "20" && "20"[..1] == "2";
    assert "02"[..1] == "0" && "30"[..1] == "3";
    assert Number("") == 0;
    assert Number("2") == 2;
    assert Number("20") == 20;
    assert Number("202") == 202;
    assert Number("2023") == 2023;
    assert Number("0") == 0;
    assert Number("02") == 2;
    assert Number("3") == 3;
    assert Number("30") == 30;
  }

  predicate AllDigits(s: string) {
    forall i | 0 <= i < |s| :: IsDigit(s[i])
  }

  function DigitValue(c: char): nat
    requires IsDigit(c)
  {
    c as int - '0' as int
  }

  function Pow10(n: nat): (r: nat)
    ensures r >= 1
  {
    if n == 0 then 1 else 10 * Pow10(n - 1)
  }

  /** The decimal number a digit string denotes. */
  function Number(s: string): nat
    requires AllDigits(s)
  {
    if s == [] then 0 else Number(s[..|s| - 1]) * 10 + DigitValue(s[|s| - 1])
  }

  function Year(s: string): nat
    requires IsDateShape(s)
  {
    Number(s[..4])
  }

  function Month(s: string): nat
    requires IsDateShape(s)
  {
    Number(s[5..7])
  }

  function Day(s: string): nat
    requires IsDateShape(s)
  {
    Number(s[8..])
  }

  /** Chronological order of the (year, month, day) fields. */
  predicate ChronoLe(a: string, b: string)
    requires IsDateShape(a) && IsDateShape(b)
  {
    || Year(a) < Year(b)
    || (Year(a) == Year(b) && Month(a) < Month(b))
    || (Year(a) == Year(b) && Month(a) == Month(b) && Day(a) <= Day(b))
  }

  lemma {:induction false} NumberBound(s: string)
    requires AllDigits(s)
    ensures Number(s) < Pow10(|s|)
  {
    if s != [] {
      NumberBound(s[..|s| - 1]);
    }
  }

  /** The same number read from the most significant digit. */
  lemma {:induction false} NumberFront(s: string)
    requires AllDigits(s) && s != []
    ensures Number(s) == DigitValue(s[0]) * Pow10(|s| - 1) + Number(s[1..])
  {
    if |s| > 1 {
      var init := s[..|s| - 1];
      NumberFront(init);
      assert s[1..][..|s| - 2] == init[1..];
      var d, p, mid := DigitValue(s[0]), Pow10(|s| - 2), Number(init[1..]);
      assert Number(init) == d * p + mid;
      Shift(d, p, mid);
    } else {
      assert s[..0] == [];
    }
  }

  lemma Shift(d: nat, p: nat, mid: nat)
    ensures (d * p + mid) * 10 == d * (10 * p) + mid * 10
  {
  }

  /** With lower digits below `p`, a smaller leading digit gives a smaller number. */
  lemma LeadingDigitDecides(da: nat, db: nat, ra: nat, rb: nat, p: nat)
    requires da < db && ra < p
    ensures da * p + ra < db * p + rb
  {
    MulLe(da + 1, db, p);
  }

  /** On digit strings of one length, string order is numeric order. */
  lemma {:induction false} DigitsOrderIsNumeric(a: string, b: string)
    requires AllDigits(a) && AllDigits(b) && |a| == |b|
    ensures LexLe(a, b) <==> Number(a) <= Number(b)
  {
    if |a| > 0 {
      NumberFront(a);
      NumberFront(b);
      DigitsOrderIsNumeric(a[1..], b[1..]);
      NumberBound(a[1..]);
      NumberBound(b[1..]);
      var p := Pow10(|a| - 1);
      var da, db := DigitValue(a[0]), DigitValue(b[0]);
      var ra, rb := Number(a[1..]), Number(b[1..]);
      if da < db {
        LeadingDigitDecides(da, db, ra, rb, p);
      } else if db < da {
        LeadingDigitDecides(db, da, rb, ra, p);
      } else {
        assert a[0] == b[0];
      }
    }
  }

  lemma MulLe(x: nat, y: nat, p: nat)
    requires x <= y
    ensures x * p <= y * p
  {
  }

  /** On digit strings of one length, equal numbers mean equal strings. */
  lemma DigitsNumberInjective(a: string, b: string)
    requires AllDigits(a) && AllDigits(b) && |a| == |b|
    ensures Number(a) == Number(b) <==> a == b
  {
    if Number(a) == Number(b) {
      DigitsOrderIsNumeric(a, b);
      DigitsOrderIsNumeric(b, a);
      LexLeAntisymmetric(a, b);
    }
  }

  /** For two strings that pass the date shape check, the string order the store
      uses for `$gte`/`$lte` and for sorting is exactly chronological order. */
  lemma DateOrderIsChronological(a: string, b: string)
    requires IsDateShape(a) && IsDateShape(b)
    ensures LexLe(a, b) <==> ChronoLe(a, b)
  {
    DateLexParts(a, b);
    DigitsPart(a, 0, 4); DigitsPart(b, 0, 4);
    DigitsPart(a, 5, 7); DigitsPart(b, 5, 7);
    DigitsPart(a, 8, 10); DigitsPart(b, 8, 10);
    PartOrder(a[..4], b[..4]);
    PartOrder(a[5..7], b[5..7]);
    PartOrder(a[8..], b[8..]);
  }

  /** Two date-shaped strings compare field by field: year, then month, then day. */
  lemma DateLexParts(a: string, b: string)
    requires IsDateShape(a) && IsDateShape(b)
    ensures LexLe(a, b) <==>
      || (a[..4] != b[..4] && LexLe(a[..4], b[..4]))
      || (a[..4] == b[..4] && a[5..7] != b[5..7] && LexLe(a[5..7], b[5..7]))
      || (a[..4] == b[..4] && a[5..7] == b[5..7] && LexLe(a[8..], b[8..]))
  {
    assert a == a[..4] + (a[4..7] + a[7..]);
    assert b == b[..4] + (b[4..7] + b[7..]);
    LexLeConcat(a[..4], a[4..7] + a[7..], b[..4], b[4..7] + b[7..]);
    assert a[4..7] + a[7..] == [a[4]] + (a[5..7] + a[7..]);
    assert b[4..7] + b[7..] == [b[4]] + (b[5..7] + b[7..]);
    LexLeConcat([a[4]], a[5..7] + a[7..], [b[4]], b[5..7] + b[7..]);
    LexLeConcat(a[5..7], a[7..], b[5..7], b[7..]);
    assert a[7..] == [a[7]] + a[8..] && b[7..] == [b[7]] + b[8..];
    LexLeConcat([a[7]], a[8..], [b[7]], b[8..]);
  }

  /** On equal-length digit strings, string order and equality are numeric. */
  lemma PartOrder(x: string, y: string)
    requires AllDigits(x) && AllDigits(y) && |x| == |y|
    ensures LexLe(x, y) <==> Number(x) <= Number(y)
    ensures x == y <==> Number(x) == Number(y)
  {
    DigitsOrderIsNumeric(x, y);
    DigitsNumberInjective(x, y);
  }

  lemma DigitsPart(s: string, lo: nat, hi: nat)
    requires IsDateShape(s)
    requires (lo, hi) == (0, 4) || (lo, hi) == (5, 7) || (lo, hi) == (8, 10)
    ensures AllDigits(s[lo..hi])
  {
  }

  /** A digit string of width `w` for `n`, zero-padded on the left. */
  function Digits(n: nat, w: nat): (r: string)
    ensures |r| == w && AllDigits(r)
  {
    if w == 0 then [] else Digits(n / 10, w - 1) + [('0' as int + n % 10) as char]
  }

  /** The date string with the given fields, as a `yyyy-MM-dd` formatter writes it. */
  function FormatDate(y: nat, m: nat, d: nat): string {
    Digits(y, 4) + "-" + Digits(m, 2) + "-" + Digits(d, 2)
  }

  lemma {:induction false} NumberOfDigits(n: nat, w: nat)
    requires n < Pow10(w)
    ensures Number(Digits(n, w)) == n
  {
    if w > 0 {
      NumberOfDigits(n / 10, w - 1);
      var r := Digits(n, w);
      assert r[..|r| - 1] == Digits(n / 10, w - 1);
    }
  }

  lemma {:induction false} DigitsOfNumber(s: string)
    requires AllDigits(s)
    ensures Digits(Number(s), |s|) == s
  {
    if s != [] {
      var init := s[..|s| - 1];
      DigitsOfNumber(init);
      var n := Number(s);
      assert n / 10 == Number(init) && n % 10 == DigitValue(s[|s| - 1]);
      assert s == init + [s[|s| - 1]];
    }
  }

  /** Every in-range triple formats to a string the shape check accepts, whatever
      the calendar says, and the fields read back are the ones written. */
  lemma FormatDateRoundTrip(y: nat, m: nat, d: nat)
    requires y < 10000 && m < 100 && d < 100
    ensures IsDateShape(FormatDate(y, m, d))
    ensures Year(FormatDate(y, m, d)) == y
    ensures Month(FormatDate(y, m, d)) == m
    ensures Day(FormatDate(y, m, d)) == d
  {
    var s := FormatDate(y, m, d);
    assert s[..4] == Digits(y, 4);
    assert s[5..7] == Digits(m, 2);
    assert s[8..] == Digits(d, 2);
    assert Pow10(4) == 10000 && Pow10(2) == 100;
    NumberOfDigits(y, 4);
    NumberOfDigits(m, 2);
    NumberOfDigits(d, 2);
  }

  /** Conversely every string the shape check accepts is the formatting of its
      own fields: the check accepts exactly the formatted dates. */
  lemma DateShapeIsFormatted(s: string)
    requires IsDateShape(s)
    ensures Year(s) < 10000 && Month(s) < 100 && Day(s) < 100
    ensures FormatDate(Year(s), Month(s), Day(s)) == s
  {
    DigitsPart(s, 0, 4);
    DigitsPart(s, 5, 7);
    DigitsPart(s, 8, 10);
    assert s[8..10] == s[8..];
    NumberBound(s[..4]);
    NumberBound(s[5..7]);
    NumberBound(s[8..]);
    assert Pow10(4) == 10000 && Pow10(2) == 100;
    DigitsOfNumber(s[..4]);
    DigitsOfNumber(s[5..7]);
    DigitsOfNumber(s[8..]);
    assert s == s[..4] + "-" + s[5..7] + "-" + s[8..];
  }

  // -------------------------------------------------------------- skills

  /** `map(String::trim)`. */
  function TrimAll(tokens: seq<string>): (r: seq<string>)
    ensures |r| == |tokens|
    ensures forall k | 0 <= k < |tokens| :: r[k] == Trim(tokens[k])
  {
    seq(|tokens|, k requires 0 <= k < |tokens| => Trim(tokens[k]))
  }

  /** `filter(s -> !s.isEmpty())`: the non-empty strings, in order. */
  function NonEmpty(ts: seq<string>): seq<string> {
    if ts == [] then []
    else if ts[0] == [] then NonEmpty(ts[1..])
    else [ts[0]] + NonEmpty(ts[1..])
  }

  /** Trim every token, then drop the empty ones. */
  function CleanTokens(tokens: seq<string>): seq<string> {
    NonEmpty(TrimAll(tokens))
  }

  /** A well-formed stored skill: non-empty, trimmed, comma-free. */
  predicate IsSkill(s: string) {
    s != [] && HasCleanEnds(s) && ',' !in s
  }

  /** The skill list typed on one line: split on commas, trim each token, drop
      the empty ones. */
  function ParseSkills(raw: string): (r: seq<string>)
    ensures forall k | 0 <= k < |r| :: IsSkill(r[k])
  {
    TokensAreSkills(Split(raw, ','));
    CleanTokens(Split(raw, ','))
  }

  lemma TokensAreSkills(tokens: seq<string>)
    requires forall k | 0 <= k < |tokens| :: ',' !in tokens[k]
    ensures forall k | 0 <= k < |CleanTokens(tokens)| :: IsSkill(CleanTokens(tokens)[k])
  {
    var ts := TrimAll(tokens);
    var r := NonEmpty(ts);
    NonEmptyElements(ts);
    forall k | 0 <= k < |r|
      ensures IsSkill(r[k])
    {
      var j :| 0 <= j < |ts| && ts[j] == r[k];
      TrimKeepsCommaFree(tokens[j]);
    }
  }

  lemma TrimKeepsCommaFree(s: string)
    requires ',' !in s
    ensures ',' !in Trim(s)
  {
    var lo, hi := TrimWindow(s);
    assert forall c | c in Trim(s) :: c in s;
  }

  /** The filter keeps only non-empty elements of its input. */
  lemma {:induction false} NonEmptyElements(ts: seq<string>)
    ensures forall k | 0 <= k < |NonEmpty(ts)| :: NonEmpty(ts)[k] != [] && NonEmpty(ts)[k] in ts
  {
    if ts != [] {
      NonEmptyElements(ts[1..]);
      var rest := NonEmpty(ts[1..]);
      if ts[0] != [] {
        var r := NonEmpty(ts);
        forall k | 0 <= k < |r|
          ensures r[k] != [] && r[k] in ts
        {
          if k > 0 { assert r[k] == rest[k - 1]; }
        }
      }
    }
  }

  lemma {:induction false} NonEmptyAppend(a: seq<string>, b: seq<string>)
    ensures NonEmpty(a + b) == NonEmpty(a) + NonEmpty(b)
  {
    if a != [] {
      NonEmptyAppend(a[1..], b);
      assert (a + b)[0] == a[0];
      assert (a + b)[1..] == a[1..] + b;
      ConsAssociates(a[0], NonEmpty(a[1..]), NonEmpty(b));
    } else {
      assert a + b == b;
    }
  }

  lemma {:induction false} NonEmptyOfEmpties(a: seq<string>)
    requires forall k | 0 <= k < |a| :: a[k] == []
    ensures NonEmpty(a) == []
  {
    if a != [] {
      NonEmptyOfEmpties(a[1..]);
    }
  }

  lemma {:induction false} NonEmptyKeepsNonEmpty(a: seq<string>)
    requires forall k | 0 <= k < |a| :: a[k] != []
    ensures NonEmpty(a) == a
  {
    if a != [] {
      NonEmptyKeepsNonEmpty(a[1..]);
      assert a == [a[0]] + a[1..];
    }
  }

  lemma TrimAllAppend(a: seq<string>, b: seq<string>)
    ensures TrimAll(a + b) == TrimAll(a) + TrimAll(b)
  {
    var l, r := TrimAll(a + b), TrimAll(a) + TrimAll(b);
    forall k | 0 <= k < |l|
      ensures l[k] == r[k]
    {
      if k < |a| { assert (a + b)[k] == a[k]; } else { assert (a + b)[k] == b[k - |a|]; }
    }
  }

  lemma AppendNothing(s: seq<string>)
    ensures s + [] == s
  {
  }

  lemma ConsAssociates(t: string, x: seq<string>, y: seq<string>)
    ensures [t] + (x + y) == ([t] + x) + y
  {
  }

  /** Dropping the trailing empty fields, as `split` does, changes nothing once
      empty tokens are filtered out: skill parsing sees every field. */
  lemma ParseSkillsSeesAllFields(raw: string)
    ensures ParseSkills(raw) == CleanTokens(Fields(raw, ','))
  {
    if ',' in raw {
      DroppedEmptiesAreIgnored(Fields(raw, ','));
    } else {
      assert Split(raw, ',') == Fields(raw, ',');
    }
  }

  /** Trailing empty tokens contribute nothing after trimming and filtering. */
  lemma DroppedEmptiesAreIgnored(parts: seq<string>)
    ensures CleanTokens(DropTrailingEmpty(parts)) == CleanTokens(parts)
  {
    var d := DropTrailingEmpty(parts);
    var tail := parts[|d|..];
    assert TrimAll(parts) == TrimAll(d) + TrimAll(tail) by {
      assert parts == d + tail;
      TrimAllAppend(d, tail);
    }
    NonEmptyAppend(TrimAll(d), TrimAll(tail));
    assert NonEmpty(TrimAll(tail)) == [] by {
      forall k | 0 <= k < |tail|
        ensures TrimAll(tail)[k] == []
      {
        assert tail[k] == parts[|d| + k];
      }
      NonEmptyOfEmpties(TrimAll(tail));
    }
    AppendNothing(CleanTokens(d));
  }

  /** Every list of well-formed skills survives being written comma-separated
      and parsed back. */
  lemma ParseJoinedSkills(skills: seq<string>)
    requires |skills| >= 1
    requires forall k | 0 <= k < |skills| :: IsSkill(skills[k])
    ensures ParseSkills(Join(skills, ',')) == skills
  {
    FieldsJoin(skills, ',');
    ParseSkillsSeesAllFields(Join(skills, ','));
    CleanTokensOfSkills(skills);
  }

  lemma CleanTokensOfSkills(skills: seq<string>)
    requires forall k | 0 <= k < |skills| :: IsSkill(skills[k])
    ensures CleanTokens(skills) == skills
  {
    assert TrimAll(skills) == skills;
    NonEmptyKeepsNonEmpty(skills);
  }

  /** `"Go, , Rust,"` parses to `["Go", "Rust"]`. */
  lemma ParseSkillsExample()
    ensures ParseSkills("Go, , Rust,") == ["Go", "Rust"]
  {
    var parts := ["Go", " ", " Rust", ""];
    ExampleFields(parts);
    ParseSkillsSeesAllFields("Go, , Rust,");
    ExampleTokens(parts);
  }

  lemma ExampleFields(parts: seq<string>)
    requires parts == ["Go", " ", " Rust", ""]
    ensures Fields("Go, , Rust,", ',') == parts
  {
    assert Join(parts[3..], ',') == "";
    assert Join(parts[2..], ',') == " Rust,";
    assert Join(parts[1..], ',') == " , Rust,";
    assert Join(parts, ',') == "Go, , Rust,";
    FieldsJoin(parts, ',');
  }

  lemma ExampleTokens(parts: seq<string>)
    requires parts == ["Go", " ", " Rust", ""]
    ensures CleanTokens(parts) == ["Go", "Rust"]
  {
    var ts := TrimAll(parts);
    assert ts[0] == "Go" by { assert HasCleanEnds("Go"); }
    assert ts[1] == [] && ts[3] == [];
    assert ts[2] == "Rust" by { TrimLeadingSpace(); }
    ExampleFilter(ts);
  }

  lemma ExampleFilter(ts: seq<string>)
    requires |ts| == 4 && ts[0] == "Go" && ts[1] == [] && ts[2] == "Rust" && ts[3] == []
    ensures NonEmpty(ts) == ["Go", "Rust"]
  {
    assert NonEmpty(ts[3..]) == [];
    assert ts[2..][1..] == ts[3..];
    assert NonEmpty(ts[2..]) == ["Rust"];
    assert ts[1..][1..] == ts[2..];
    assert NonEmpty(ts[1..]) == ["Rust"];
  }

  lemma TrimLeadingSpace()
    ensures Trim(" Rust") == "Rust"
  {
    assert " Rust"[1..] == "Rust";
    assert TrimStart("Rust") == "Rust";
    assert TrimStart(" Rust") == "Rust";
    assert HasCleanEnds("Rust");
  }
}
