/** Shared vocabulary: optional values, character classes of the two host
    languages (JavaScript and Python), trimming, ASCII case folding, joining
    and order-preserving de-duplication of sequences. */
module Common {

  datatype Option<T> = None | Some(value: T)

  // ---------------------------------------------------------------------
  // Character classes
  // ---------------------------------------------------------------------

  /** White space as JavaScript's `\s`, `String.prototype.trim` and
      `trimEnd` understand it (WhiteSpace plus LineTerminator). */
  predicate IsJsSpace(c: char) {
    var n := c as int;
    (0x09 <= n <= 0x0D) || n == 0x20 || n == 0xA0 || n == 0x1680
    || (0x2000 <= n <= 0x200A) || n == 0x2028 || n == 0x2029
    || n == 0x202F || n == 0x205F || n == 0x3000 || n == 0xFEFF
  }

  /** The characters a JavaScript `.` does not match (line terminators). */
  predicate IsJsLineTerminator(c: char) {
    c == '\n' || c == '\r' || c as int == 0x2028 || c as int == 0x2029
  }

  /** White space as Python's `str.isspace`, `str.strip` and the `\s` of a
      `str` pattern in `re` understand it. */
  predicate IsPySpace(c: char) {
    var n := c as int;
    (0x09 <= n <= 0x0D) || (0x1C <= n <= 0x20) || n == 0x85 || n == 0xA0
    || n == 0x1680 || (0x2000 <= n <= 0x200A) || n == 0x2028 || n == 0x2029
    || n == 0x202F || n == 0x205F || n == 0x3000
  }

  /** `\w` of a JavaScript regular expression without the `u` flag. */
  predicate IsJsWordChar(c: char) {
    ('a' <= c <= 'z') || ('A' <= c <= 'Z') || ('0' <= c <= '9') || c == '_'
  }

  // ---------------------------------------------------------------------
  // Trimming
  // ---------------------------------------------------------------------

  /** Whose notion of white space applies. */
  datatype Host = JavaScript | Python

  predicate IsSpace(host: Host, c: char) {
    match host
    case JavaScript => IsJsSpace(c)
    case Python => IsPySpace(c)
  }

  /** Drops leading white space. */
  function TrimStart(host: Host, s: string): (r: string)
    ensures |r| <= |s| && r == s[|s| - |r|..]
    ensures r == [] || !IsSpace(host, r[0])
    ensures forall i :: 0 <= i < |s| - |r| ==> IsSpace(host, s[i])
  {
    if s != [] && IsSpace(host, s[0]) then TrimStart(host, s[1..]) else s
  }

  /** Drops trailing white space (`trimEnd`). */
  function TrimEnd(host: Host, s: string): (r: string)
    ensures |r| <= |s| && r == s[..|r|]
    ensures r == [] || !IsSpace(host, r[|r| - 1])
    ensures forall i :: |r| <= i < |s| ==> IsSpace(host, s[i])
  {
    if s != [] && IsSpace(host, s[|s| - 1]) then TrimEnd(host, s[..|s| - 1]) else s
  }

  /** Drops white space at both ends: JavaScript `trim`, Python `strip`. */
  function Trim(host: Host, s: string): (r: string)
    ensures |r| <= |s|
    ensures r == [] || (!IsSpace(host, r[0]) && !IsSpace(host, r[|r| - 1]))
  {
    TrimEnd(host, TrimStart(host, s))
  }

  /** Trimming a string with no white space at its ends changes nothing. */
  lemma TrimOfTrimmed(host: Host, s: string)
    requires s == [] || (!IsSpace(host, s[0]) && !IsSpace(host, s[|s| - 1]))
    ensures Trim(host, s) == s
  {
  }

  predicate AllSpace(host: Host, s: string) {
    forall i :: 0 <= i < |s| ==> IsSpace(host, s[i])
  }

  lemma TrimStartPadded(host: Host, p: string, t: string)
    requires AllSpace(host, p) && (t == [] || !IsSpace(host, t[0]))
    ensures TrimStart(host, p + t) == t
  {
    var s := p + t;
    var r := TrimStart(host, s);
    var m := |s| - |r|;
    assert forall i :: 0 <= i < |p| ==> s[i] == p[i];
    assert t != [] ==> s[|p|] == t[0];
    assert r != [] ==> r[0] == s[m];
    assert m == |p|;
    assert s[|p|..] == t;
  }

  lemma {:induction false} TrimEndPadded(host: Host, t: string, q: string)
    requires AllSpace(host, q) && (t == [] || !IsSpace(host, t[|t| - 1]))
    ensures TrimEnd(host, t + q) == t
    decreases |q|
  {
    if q != [] {
      var q' := q[..|q| - 1];
      assert (t + q)[..|t + q| - 1] == t + q';
      TrimEndPadded(host, t, q');
    }
  }

  /** Trimming removes exactly white-space padding around a word. */
  lemma TrimPadded(host: Host, p: string, t: string, q: string)
    requires AllSpace(host, p) && AllSpace(host, q)
    requires t != [] && !IsSpace(host, t[0]) && !IsSpace(host, t[|t| - 1])
    ensures Trim(host, p + t + q) == t
  {
    assert p + t + q == p + (t + q);
    TrimStartPadded(host, p, t + q);
    TrimEndPadded(host, t, q);
  }

  /** Index of the first JavaScript white-space character of `t`, or `|t|`. */
  function FirstJsSpace(t: string): (k: nat)
    ensures k <= |t|
    ensures k < |t| ==> IsJsSpace(t[k])
    ensures forall j :: 0 <= j < k ==> !IsJsSpace(t[j])
  {
    if t == [] then 0
    else if IsJsSpace(t[0]) then 0
    else 1 + FirstJsSpace(t[1..])
  }

  /** Length of the JavaScript white-space run at the start of `t`. */
  function JsSpaceRun(t: string): (k: nat)
    ensures k <= |t|
    ensures forall j :: 0 <= j < k ==> IsJsSpace(t[j])
    ensures k < |t| ==> !IsJsSpace(t[k])
  {
    if t != [] && IsJsSpace(t[0]) then 1 + JsSpaceRun(t[1..]) else 0
  }

  // ---------------------------------------------------------------------
  // Case folding (ASCII letters only)
  // ---------------------------------------------------------------------

  function LowerChar(c: char): (r: char)
    ensures 'A' <= c <= 'Z' ==> r as int == c as int + 32
    ensures !('A' <= c <= 'Z') ==> r == c
  {
    if 'A' <= c <= 'Z' then (c as int + 32) as char else c
  }

  /** ASCII lower-casing of a string, the part of `toLowerCase` modelled here. */
  function Lower(s: string): (r: string)
    ensures |r| == |s|
    ensures forall i :: 0 <= i < |s| ==> r[i] == LowerChar(s[i])
  {
    if s == [] then [] else [LowerChar(s[0])] + Lower(s[1..])
  }

  /** ASCII case-insensitive equality, as a regular expression's `i` flag
      without `u` compares letters. */
  predicate EqualsIgnoreCase(a: string, b: string) {
    Lower(a) == Lower(b)
  }

  // ---------------------------------------------------------------------
  // Sequences
  // ---------------------------------------------------------------------

  /** `parts.join(sep)`. */
  function Join(parts: seq<string>, sep: string): string
  {
    if |parts| == 0 then ""
    else if |parts| == 1 then parts[0]
    else parts[0] + sep + Join(parts[1..], sep)
  }

  /** `" ".repeat(n)`. */
  function Spaces(n: nat): (r: string)
    ensures |r| == n && forall i :: 0 <= i < n ==> r[i] == ' '
  {
    if n == 0 then "" else Spaces(n - 1) + " "
  }

  predicate NoDuplicates<T(==)>(s: seq<T>) {
    forall i, j :: 0 <= i < j < |s| ==> s[i] != s[j]
  }

  /** Index of the first occurrence of `x` in `s`. */
  function FirstIndex<T(==)>(s: seq<T>, x: T): (k: nat)
    requires x in s
    ensures k < |s| && s[k] == x && forall j :: 0 <= j < k ==> s[j] != x
  {
    if s[0] == x then 0 else 1 + FirstIndex(s[1..], x)
  }

  /** Index of the first element of `s` that satisfies `p`. */
  function FirstWhere<T>(s: seq<T>, p: T -> bool): (k: nat)
    requires exists i :: 0 <= i < |s| && p(s[i])
    ensures k < |s| && p(s[k]) && forall j :: 0 <= j < k ==> !p(s[j])
  {
    if p(s[0]) then 0
    else
      var i :| 0 <= i < |s| && p(s[i]);
      assert s[1..][i - 1] == s[i];
      var k := FirstWhere(s[1..], p);
      assert forall j :: 1 <= j <= k ==> s[j] == s[1..][j - 1];
      1 + k
  }

  /** Keeps the first occurrence of every element, in order: what
      `Array.from(new Set(s))` and `[...new Set(s)]` compute. */
  function Dedup<T(==)>(s: seq<T>): (r: seq<T>)
    ensures NoDuplicates(r)
    ensures forall i :: 0 <= i < |r| ==> r[i] in s
    ensures forall i :: 0 <= i < |s| ==> s[i] in r
    decreases |s|
  {
    if s == [] then []
    else
      var d := Dedup(s[..|s| - 1]);
      var last := s[|s| - 1];
      if last in d then d else d + [last]
  }

  /** Dedup keeps elements in the order of their first occurrences. */
  lemma {:induction false} DedupFirstOccurrenceOrder<T>(s: seq<T>, i: nat, j: nat)
    requires i < j < |Dedup(s)|
    ensures Dedup(s)[i] in s && Dedup(s)[j] in s
    ensures FirstIndex(s, Dedup(s)[i]) < FirstIndex(s, Dedup(s)[j])
    decreases |s|
  {
    var p := s[..|s| - 1];
    var d := Dedup(p);
    var last := s[|s| - 1];
    assert forall x :: x in p ==> x in s && FirstIndex(s, x) == FirstIndex(p, x) by {
      forall x | x in p ensures x in s && FirstIndex(s, x) == FirstIndex(p, x) {
        FirstIndexPrefix(s, p, x);
      }
    }
    if last in d {
      DedupFirstOccurrenceOrder(p, i, j);
    } else {
      if j < |d| {
        DedupFirstOccurrenceOrder(p, i, j);
      } else {
        assert Dedup(s)[j] == last && last !in p;
        assert Dedup(s)[i] == d[i] && d[i] in p;
        assert FirstIndex(s, last) == |s| - 1;
      }
    }
  }

  /** What the tail of a sequence holds, the sequence holds; stated
      generically so that no element equality is unfolded. */
  /** A sequence is its prefix followed by the rest. */
  lemma {:induction false} TakeDrop<T>(s: seq<T>, k: nat)
    requires k <= |s|
    ensures s[..k] + s[k..] == s
  {
  }

  /** Two non-empty sequences with the same head and tail are equal. */
  lemma {:induction false} HeadTail<T>(a: seq<T>, b: seq<T>)
    requires |a| >= 1 && |b| >= 1 && a[0] == b[0] && a[1..] == b[1..]
    ensures a == b
  {
    assert a == [a[0]] + a[1..];
    assert b == [b[0]] + b[1..];
  }

  lemma {:induction false} AppendAssoc<T>(a: seq<T>, b: seq<T>, c: seq<T>)
    ensures a + (b + c) == a + b + c
  {
  }

  /** Dropping twice drops the sum. */
  lemma {:induction false} DropDrop<T>(s: seq<T>, a: nat, b: nat)
    requires a + b <= |s|
    ensures s[a..][b..] == s[a + b..]
  {
  }

  /** Appending an element keeps what the sequence held and adds it. */
  lemma InSnoc<T>(s: seq<T>, y: T, x: T)
    requires x in s || x == y
    ensures x in s + [y]
  {
    if x in s {
      var i :| 0 <= i < |s| && s[i] == x;
      assert (s + [y])[i] == x;
    } else {
      assert (s + [y])[|s|] == x;
    }
  }

  lemma InTail<T>(s: seq<T>, x: T)
    requires s != [] && x in s[1..]
    ensures x in s
  {
  }

  /** The sequence without its last element keeps the other positions and
      everything but possibly that element. */
  lemma DropLast<T>(s: seq<T>)
    requires s != []
    ensures forall i :: 0 <= i < |s| - 1 ==> s[..|s| - 1][i] == s[i]
    ensures forall x :: x in s <==> x in s[..|s| - 1] || x == s[|s| - 1]
  {
    assert s == s[..|s| - 1] + [s[|s| - 1]];
  }

  lemma FirstIndexPrefix<T>(s: seq<T>, p: seq<T>, x: T)
    requires p <= s && x in p
    ensures x in s && FirstIndex(s, x) == FirstIndex(p, x)
  {
    var k := FirstIndex(p, x);
    assert s[k] == x;
    var ks := FirstIndex(s, x);
    assert ks <= k;
    assert p[ks] == x;
  }

  /** A duplicate-free sequence is its own de-duplication. */
  lemma {:induction false} DedupOfDistinct<T>(s: seq<T>)
    requires NoDuplicates(s)
    ensures Dedup(s) == s
    decreases |s|
  {
    if s != [] {
      var p := s[..|s| - 1];
      assert NoDuplicates(p);
      DedupOfDistinct(p);
      assert s[|s| - 1] !in p;
      assert p + [s[|s| - 1]] == s;
    }
  }

  /** The elements of `s` that satisfy `keep`, in order. */
  function Filter<T(==)>(s: seq<T>, keep: T -> bool): (r: seq<T>)
    ensures |r| <= |s|
    ensures forall i :: 0 <= i < |r| ==> r[i] in s && keep(r[i])
    ensures forall i :: 0 <= i < |s| && keep(s[i]) ==> s[i] in r
  {
    if s == [] then []
    else if keep(s[0]) then [s[0]] + Filter(s[1..], keep)
    else Filter(s[1..], keep)
  }

  /** `sub` is obtained from `s` by deleting elements. */
  predicate IsSubsequence<T(==)>(sub: seq<T>, s: seq<T>)
    decreases |s|
  {
    if sub == [] then true
    else if s == [] then false
    else if sub[0] == s[0] then IsSubsequence(sub[1..], s[1..])
    else IsSubsequence(sub, s[1..])
  }

  lemma {:induction false} FilterIsSubsequence<T>(s: seq<T>, keep: T -> bool)
    ensures IsSubsequence(Filter(s, keep), s)
  {
    if s != [] {
      FilterIsSubsequence(s[1..], keep);
      if !keep(s[0]) {
        SubsequenceSkip(Filter(s[1..], keep), s[0], s[1..]);
      }
    }
  }

  lemma {:induction false} SubsequenceSkip<T>(sub: seq<T>, x: T, s: seq<T>)
    requires IsSubsequence(sub, s)
    ensures IsSubsequence(sub, [x] + s)
    decreases |s|, 1
  {
    if sub != [] {
      assert ([x] + s)[1..] == s;
      if sub[0] == x {
        // x matches sub[0]; the rest of sub is still a subsequence of s
        SubsequenceTail(sub, s);
      }
    }
  }

  lemma {:induction false} SubsequenceTail<T>(sub: seq<T>, s: seq<T>)
    requires sub != [] && IsSubsequence(sub, s)
    ensures IsSubsequence(sub[1..], s)
    decreases |s|, 0
  {
    if s != [] {
      if sub[0] == s[0] {
        SubsequenceSkip(sub[1..], s[0], s[1..]);
        assert [s[0]] + s[1..] == s;
      } else {
        SubsequenceTail(sub, s[1..]);
        SubsequenceSkip(sub[1..], s[0], s[1..]);
        assert [s[0]] + s[1..] == s;
      }
    }
  }

  /** Deleting elements twice is deleting elements. */
  lemma {:induction false} SubsequenceTrans<T>(a: seq<T>, b: seq<T>, c: seq<T>)
    requires IsSubsequence(a, b) && IsSubsequence(b, c)
    ensures IsSubsequence(a, c)
    decreases |c|
  {
    if a != [] {
      assert [c[0]] + c[1..] == c;
      if b[0] == c[0] {
        if a[0] == b[0] {
          SubsequenceTrans(a[1..], b[1..], c[1..]);
        } else {
          SubsequenceTrans(a, b[1..], c[1..]);
          SubsequenceSkip(a, c[0], c[1..]);
        }
      } else {
        SubsequenceTrans(a, b, c[1..]);
        SubsequenceSkip(a, c[0], c[1..]);
      }
    }
  }

  lemma {:induction false} FilterOfDistinct<T>(s: seq<T>, keep: T -> bool)
    requires NoDuplicates(s)
    ensures NoDuplicates(Filter(s, keep))
  {
    if s != [] {
      assert NoDuplicates(s[1..]);
      FilterOfDistinct(s[1..], keep);
      assert s[0] !in s[1..];
    }
  }
}
