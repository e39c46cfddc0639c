/**
 The four `java.lang.String` operations the employee console applies to raw
 console input before it touches the store: `trim`, `isBlank`, ASCII
 `toLowerCase`, and `split` on a single separator character.
 */
module JavaString {

  /** `String.trim` strips every leading and trailing char whose code is at most U+0020. */
  predicate IsTrimmable(c: char) {
    c as int <= 0x20
  }

  /** `Character.isWhitespace` restricted to ASCII: tab, line feed, vertical tab,
      form feed, carriage return, the four separators U+001C..U+001F and space. */
  predicate IsWhitespace(c: char) {
    var n := c as int;
    n == 0x20 || 0x09 <= n <= 0x0D || 0x1C <= n <= 0x1F
  }

  /** A string that `trim` leaves as it is. */
  predicate HasCleanEnds(s: string) {
    s == [] || (!IsTrimmable(s[0]) && !IsTrimmable(s[|s| - 1]))
  }

  function TrimStart(s: string): (r: string)
    ensures |r| <= |s|
    ensures r == [] || !IsTrimmable(r[0])
    ensures r != [] ==> r[|r| - 1] == s[|s| - 1]
  {
    if |s| > 0 && IsTrimmable(s[0]) then TrimStart(s[1..]) else s
  }

  /** `TrimStart` drops a prefix made of trimmable chars. */
  lemma {:induction false} TrimStartDropsPrefix(s: string)
    ensures TrimStart(s) == s[|s| - |TrimStart(s)|..]
    ensures forall i | 0 <= i < |s| - |TrimStart(s)| :: IsTrimmable(s[i])
  {
    if |s| > 0 && IsTrimmable(s[0]) {
      TrimStartDropsPrefix(s[1..]);
      forall i | 1 <= i < |s| - |TrimStart(s)|
        ensures IsTrimmable(s[i])
      {
        assert s[i] == s[1..][i - 1];
      }
    }
  }

  function TrimEnd(s: string): (r: string)
    ensures |r| <= |s|
    ensures r == [] || !IsTrimmable(r[|r| - 1])
    ensures r != [] ==> r[0] == s[0]
  {
    if |s| > 0 && IsTrimmable(s[|s| - 1]) then TrimEnd(s[..|s| - 1]) else s
  }

  /** `TrimEnd` drops a suffix made of trimmable chars. */
  lemma {:induction false} TrimEndDropsSuffix(s: string)
    ensures TrimEnd(s) == s[..|TrimEnd(s)|]
    ensures forall i | |TrimEnd(s)| <= i < |s| :: IsTrimmable(s[i])
  {
    if |s| > 0 && IsTrimmable(s[|s| - 1]) {
      TrimEndDropsSuffix(s[..|s| - 1]);
      forall i | |TrimEnd(s)| <= i < |s| - 1
        ensures IsTrimmable(s[i])
      {
        assert s[i] == s[..|s| - 1][i];
      }
    }
  }

  /** `String.trim()`. */
  function Trim(s: string): (r: string)
    ensures |r| <= |s|
    ensures HasCleanEnds(r)
    ensures HasCleanEnds(s) ==> r == s
  {
    TrimEnd(TrimStart(s))
  }

  /** What `trim` keeps is one contiguous window of its input, and everything it
      drops on either side is trimmable. */
  lemma TrimWindow(s: string) returns (lo: nat, hi: nat)
    ensures lo <= hi <= |s|
    ensures Trim(s) == s[lo..hi]
    ensures forall i | 0 <= i < lo :: IsTrimmable(s[i])
    ensures forall i | hi <= i < |s| :: IsTrimmable(s[i])
  {
    var t := TrimStart(s);
    TrimStartDropsPrefix(s);
    TrimEndDropsSuffix(t);
    lo := |s| - |t|;
    hi := lo + |TrimEnd(t)|;
    assert t == s[lo..];
    assert TrimEnd(t) == t[..hi - lo];
    forall i | hi <= i < |s|
      ensures IsTrimmable(s[i])
    {
      assert s[i] == t[i - lo];
    }
  }

  /** `trim` yields the empty string exactly when every char is trimmable. */
  lemma TrimEmptyIff(s: string)
    ensures Trim(s) == [] <==> forall i | 0 <= i < |s| :: IsTrimmable(s[i])
  {
    var lo, hi := TrimWindow(s);
    if lo < hi {
      assert Trim(s)[0] == s[lo];
    }
  }

  lemma TrimIdempotent(s: string)
    ensures Trim(Trim(s)) == Trim(s)
  {
  }

  /** `String.isBlank()`: empty or only whitespace. */
  predicate IsBlank(s: string) {
    forall i | 0 <= i < |s| :: IsWhitespace(s[i])
  }

  /** Every blank string trims to the empty string ... */
  lemma BlankTrimsToEmpty(s: string)
    requires IsBlank(s)
    ensures Trim(s) == []
  {
    TrimEmptyIff(s);
  }

  /** ... but not conversely: a lone NUL is trimmed away yet is not blank. */
  lemma TrimEmptyDoesNotMeanBlank()
    ensures Trim("\0") == [] && !IsBlank("\0")
  {
    TrimEmptyIff("\0");
    assert !IsWhitespace("\0"[0]);
  }

  predicate IsUpperAscii(c: char) {
    'A' <= c <= 'Z'
  }

  function LowerChar(c: char): (r: char)
    ensures !IsUpperAscii(r)
    ensures IsUpperAscii(c) ==> r as int == c as int + 32
    ensures !IsUpperAscii(c) ==> r == c
  {
    if IsUpperAscii(c) then (c as int + 32) as char else c
  }

  /** `String.toLowerCase()` over ASCII letters; every other char is kept. */
  function ToLower(s: string): (r: string)
    ensures |r| == |s|
    ensures forall i | 0 <= i < |s| :: r[i] == LowerChar(s[i])
  {
    seq(|s|, i requires 0 <= i < |s| => LowerChar(s[i]))
  }

  predicate IsLowerCased(s: string) {
    forall i | 0 <= i < |s| :: !IsUpperAscii(s[i])
  }

  /** Lower-casing yields a string with no upper-case letter, changes nothing
      else about trimming, and is the identity exactly on such strings. */
  lemma ToLowerFacts(s: string)
    ensures IsLowerCased(ToLower(s))
    ensures HasCleanEnds(s) ==> HasCleanEnds(ToLower(s))
    ensures ToLower(s) == s <==> IsLowerCased(s)
  {
    if IsLowerCased(s) {
      assert ToLower(s) == s;
    }
  }

  /** All the pieces of `s` between occurrences of `sep`, empty ones included. */
  function Fields(s: string, sep: char): (r: seq<string>)
    ensures |r| >= 1
    ensures forall k | 0 <= k < |r| :: sep !in r[k]
    ensures sep !in s ==> r == [s]
  {
    if s == [] then [[]]
    else
      var rest := Fields(s[1..], sep);
      if s[0] == sep then [[]] + rest
      else
        assert sep !in s ==> [s[0]] + s[1..] == s;
        [[s[0]] + rest[0]] + rest[1..]
  }

  /** The pieces glued back together with the separator between them. */
  function Join(parts: seq<string>, sep: char): string
    requires |parts| >= 1
  {
    if |parts| == 1 then parts[0] else parts[0] + [sep] + Join(parts[1..], sep)
  }

  lemma {:induction false} JoinFields(s: string, sep: char)
    ensures Join(Fields(s, sep), sep) == s
  {
    if s != [] {
      JoinFields(s[1..], sep);
      var rest := Fields(s[1..], sep);
      if s[0] == sep {
        assert Fields(s, sep)[1..] == rest;
      } else if |rest| == 1 {
        assert [s[0]] + rest[0] == s;
      } else {
        assert Fields(s, sep)[1..] == rest[1..];
        assert Join(rest, sep) == rest[0] + [sep] + Join(rest[1..], sep);
      }
    }
  }

  lemma {:induction false} FieldsJoin(parts: seq<string>, sep: char)
    requires |parts| >= 1
    requires forall k | 0 <= k < |parts| :: sep !in parts[k]
    ensures Fields(Join(parts, sep), sep) == parts
  {
    if |parts| > 1 {
      FieldsJoin(parts[1..], sep);
      FieldsPrefix(parts[0], [sep] + Join(parts[1..], sep), sep);
      var tail := [sep] + Join(parts[1..], sep);
      assert tail[1..] == Join(parts[1..], sep);
      assert Fields(tail, sep) == [[]] + parts[1..];
      assert parts[0] + [sep] + Join(parts[1..], sep) == parts[0] + tail;
      assert Fields(tail, sep)[0] == [] && Fields(tail, sep)[1..] == parts[1..];
      assert parts[0] + [] == parts[0];
      assert [parts[0]] + parts[1..] == parts;
    }
  }

  /** A separator-free prefix extends the first field and leaves the others. */
  lemma {:induction false} FieldsPrefix(p: string, t: string, sep: char)
    requires sep !in p
    ensures Fields(p + t, sep) == [p + Fields(t, sep)[0]] + Fields(t, sep)[1..]
  {
    if p != [] {
      var s, f := p + t, Fields(t, sep);
      var rest := Fields(s[1..], sep);
      assert rest == [p[1..] + f[0]] + f[1..] by {
        assert s[1..] == p[1..] + t;
        FieldsPrefix(p[1..], t, sep);
      }
      assert Fields(s, sep) == [[p[0]] + rest[0]] + rest[1..] by {
        assert s[0] == p[0] && s[0] != sep;
      }
      assert [p[0]] + (p[1..] + f[0]) == p + f[0];
    } else {
      var f := Fields(t, sep);
      assert p + t == t && p + f[0] == f[0];
      assert [f[0]] + f[1..] == f;
    }
  }

  function DropTrailingEmpty(parts: seq<string>): (r: seq<string>)
    ensures |r| <= |parts| && r == parts[..|r|]
    ensures forall k | |r| <= k < |parts| :: parts[k] == []
    ensures r == [] || r[|r| - 1] != []
  {
    if parts != [] && parts[|parts| - 1] == [] then DropTrailingEmpty(parts[..|parts| - 1]) else parts
  }

  /** `String.split` with a one-char literal pattern and limit 0: the whole input
      when the separator does not occur, otherwise the fields with trailing empty
      ones removed. */
  function Split(s: string, sep: char): (r: seq<string>)
    ensures forall k | 0 <= k < |r| :: sep !in r[k]
    ensures sep !in s ==> r == [s]
    ensures sep in s ==> |r| <= |Fields(s, sep)| && r == Fields(s, sep)[..|r|]
    ensures sep in s ==> forall k | |r| <= k < |Fields(s, sep)| :: Fields(s, sep)[k] == []
    ensures sep in s ==> r == [] || r[|r| - 1] != []
  {
    if sep !in s then [s] else DropTrailingEmpty(Fields(s, sep))
  }
}
