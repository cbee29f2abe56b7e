/** The JavaScript string built-ins the components rely on: `toLowerCase`,
    `trim`, `includes`, `Array.prototype.join` and its inverse, splitting on
    one separator character. */
module Text {

  /** `toLowerCase` on one character, for the ASCII range. */
  function LowerChar(c: char): char {
    if 'A' <= c <= 'Z' then (c as int + 32) as char else c
  }

  /** `s.toLowerCase()`: every ASCII upper-case letter becomes lower case,
      every other character is kept. */
  function ToLower(s: string): (r: string)
    ensures |r| == |s|
    ensures forall i :: 0 <= i < |s| ==> r[i] == LowerChar(s[i])
  {
    seq(|s|, i requires 0 <= i < |s| => LowerChar(s[i]))
  }

  /** The characters `String.prototype.trim` removes: ECMAScript WhiteSpace
      and LineTerminator. */
  predicate IsJsWhitespace(c: char) {
    var n := c as int;
    n == 0x09 || n == 0x0A || n == 0x0B || n == 0x0C || n == 0x0D || n == 0x20
    || n == 0xA0 || n == 0x1680 || (0x2000 <= n <= 0x200A) || n == 0x2028
    || n == 0x2029 || n == 0x202F || n == 0x205F || n == 0x3000 || n == 0xFEFF
  }

  /** Number of leading whitespace characters. */
  function LeadingSpace(s: string): (n: nat)
    ensures n <= |s|
    ensures forall i :: 0 <= i < n ==> IsJsWhitespace(s[i])
    ensures n < |s| ==> !IsJsWhitespace(s[n])
    decreases |s|
  {
    if |s| > 0 && IsJsWhitespace(s[0]) then 1 + LeadingSpace(s[1..]) else 0
  }

  /** Number of trailing whitespace characters. */
  function TrailingSpace(s: string): (n: nat)
    ensures n <= |s|
    ensures forall i :: |s| - n <= i < |s| ==> IsJsWhitespace(s[i])
    ensures n < |s| ==> !IsJsWhitespace(s[|s| - n - 1])
    decreases |s|
  {
    if |s| > 0 && IsJsWhitespace(s[|s| - 1]) then 1 + TrailingSpace(s[..|s| - 1]) else 0
  }

  /** `s.trim()`: the longest infix of `s` that neither starts nor ends with
      whitespace, everything cut off being whitespace. */
  function Trim(s: string): (r: string)
    ensures exists i, j :: 0 <= i <= j <= |s| && r == s[i..j]
                           && (forall k :: 0 <= k < i ==> IsJsWhitespace(s[k]))
                           && (forall k :: j <= k < |s| ==> IsJsWhitespace(s[k]))
    ensures r != [] ==> !IsJsWhitespace(r[0]) && !IsJsWhitespace(r[|r| - 1])
  {
    var lead := LeadingSpace(s);
    var rest := s[lead..];
    var trail := TrailingSpace(rest);
    assert rest[..|rest| - trail] == s[lead..|s| - trail];
    rest[..|rest| - trail]
  }

  /** `s.includes(q)`: `q` is a prefix of some suffix of `s`. */
  predicate Contains(s: string, q: string)
    decreases |s|
  {
    q <= s || (|s| > 0 && Contains(s[1..], q))
  }

  /** `q` occurs in `s` starting at position `i`. */
  predicate OccursAt(s: string, q: string, i: int) {
    0 <= i && i + |q| <= |s| && s[i..i + |q|] == q
  }

  /** `Contains` holds exactly when `q` occurs in `s` at some position. */
  lemma ContainsAt(s: string, q: string)
    ensures Contains(s, q) <==> exists i :: OccursAt(s, q, i)
  {
    if Contains(s, q) {
      ContainsWitness(s, q);
    }
    if exists i :: OccursAt(s, q, i) {
      var i :| OccursAt(s, q, i);
      OccursContains(s, q, i);
    }
  }

  /** An occurrence found by `Contains`. */
  lemma {:induction false} ContainsWitness(s: string, q: string)
    requires Contains(s, q)
    ensures exists i :: OccursAt(s, q, i)
    decreases |s|
  {
    if q <= s {
      assert OccursAt(s, q, 0);
    } else {
      ContainsWitness(s[1..], q);
      var i :| OccursAt(s[1..], q, i);
      assert s[i + 1..i + 1 + |q|] == s[1..][i..i + |q|];
      assert OccursAt(s, q, i + 1);
    }
  }

  /** An occurrence at any position satisfies `Contains`. */
  lemma {:induction false} OccursContains(s: string, q: string, i: int)
    requires OccursAt(s, q, i)
    ensures Contains(s, q)
    decreases i
  {
    if i == 0 {
      assert s[..|q|] == q;
    } else {
      assert s[1..][i - 1..i - 1 + |q|] == s[i..i + |q|];
      OccursContains(s[1..], q, i - 1);
    }
  }

  /** `ls.join([sep])`. */
  function Join(ls: seq<string>, sep: char): string
    decreases |ls|
  {
    if |ls| == 0 then ""
    else if |ls| == 1 then ls[0]
    else ls[0] + [sep] + Join(ls[1..], sep)
  }

  /** `s.split(sep)` for a one-character separator: the maximal pieces of `s`
      that do not contain `sep`; there is always at least one piece. */
  function Split(s: string, sep: char): (r: seq<string>)
    ensures |r| >= 1
    decreases |s|
  {
    if |s| == 0 then [""]
    else
      var rest := Split(s[1..], sep);
      if s[0] == sep then [""] + rest
      else [[s[0]] + rest[0]] + rest[1..]
  }

  /** A piece free of the separator comes back as one piece. */
  lemma {:induction false} SplitNoSeparator(a: string, sep: char)
    requires sep !in a
    ensures Split(a, sep) == [a]
    decreases |a|
  {
    if |a| > 0 {
      SplitNoSeparator(a[1..], sep);
      assert [a[0]] + a[1..] == a;
    }
  }

  /** Splitting stops at the first separator. */
  lemma {:induction false} SplitAtSeparator(a: string, b: string, sep: char)
    requires sep !in a
    ensures Split(a + [sep] + b, sep) == [a] + Split(b, sep)
    decreases |a|
  {
    var s := a + [sep] + b;
    if |a| == 0 {
      assert s[1..] == b;
    } else {
      assert s[1..] == a[1..] + [sep] + b;
      SplitAtSeparator(a[1..], b, sep);
      assert [a[0]] + a[1..] == a;
    }
  }

  /** Splitting undoes joining when no piece contains the separator. */
  lemma {:induction false} SplitJoin(ls: seq<string>, sep: char)
    requires |ls| >= 1
    requires forall i :: 0 <= i < |ls| ==> sep !in ls[i]
    ensures Split(Join(ls, sep), sep) == ls
    decreases |ls|
  {
    if |ls| == 1 {
      SplitNoSeparator(ls[0], sep);
    } else {
      SplitAtSeparator(ls[0], Join(ls[1..], sep), sep);
      SplitJoin(ls[1..], sep);
    }
  }
}
