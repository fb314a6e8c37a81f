/** The JavaScript and Node.js built-ins that server.js leans on, with their
    edge cases written out: String and Buffer `indexOf` (a clamped start
    position, -1 when absent), `substring` (clamped and swapped bounds),
    Array `indexOf`/`splice`, and the UTF-8 encoding `Buffer.from(string)`
    applies. */
module Builtins {

  newtype byte = b: int | 0 <= b < 0x100

  datatype Option<T> = None | Some(value: T)

  /** Every element occurs once: the arrays of responses never hold one twice. */
  predicate NoDup<T(==)>(s: seq<T>) {
    forall i, j :: 0 <= i < j < |s| ==> s[i] != s[j]
  }

  /** JavaScript clamps a position argument into [0, n]. */
  function Clamp(x: int, n: nat): (r: nat)
    ensures r <= n
    ensures 0 <= x <= n ==> r == x
  {
    if x < 0 then 0 else if x > n then n else x
  }

  /** `pat` occurs in `s` starting at index `i`. */
  predicate OccursAt<T(==)>(s: seq<T>, pat: seq<T>, i: int) {
    0 <= i && i + |pat| <= |s| && s[i..i + |pat|] == pat
  }

  /** The first occurrence of `pat` in `s` at or after `k`, or -1. */
  function IndexOfFrom<T(==)>(s: seq<T>, pat: seq<T>, k: nat): (r: int)
    ensures r == -1 || (k <= r && OccursAt(s, pat, r))
    ensures forall j :: k <= j && (r == -1 || j < r) ==> !OccursAt(s, pat, j)
    decreases |s| - k
  {
    if k + |pat| > |s| then -1
    else if s[k..k + |pat|] == pat then k
    else IndexOfFrom(s, pat, k + 1)
  }

  /** `s.indexOf(pat, from)` for strings and for Buffers: the search starts at
      `from` clamped into [0, |s|], so a negative start searches from 0. */
  function IndexOf<T(==)>(s: seq<T>, pat: seq<T>, from: int): (r: int)
  {
    IndexOfFrom(s, pat, Clamp(from, |s|))
  }

  /** `IndexOf` finds exactly the first occurrence at or after the clamped start. */
  lemma IndexOfIsFirst<T>(s: seq<T>, pat: seq<T>, from: int, i: int)
    requires Clamp(from, |s|) <= i && OccursAt(s, pat, i)
    requires forall j :: Clamp(from, |s|) <= j < i ==> !OccursAt(s, pat, j)
    ensures IndexOf(s, pat, from) == i
  {
  }

  /** A one-element pattern occurs exactly where that element stands. */
  lemma OccursAtSingle<T>(s: seq<T>, c: T, j: int)
    ensures OccursAt(s, [c], j) <==> 0 <= j < |s| && s[j] == c
  {
    if 0 <= j < |s| {
      assert s[j..j + 1] == [s[j]];
    }
  }

  /** A pattern holding an element that `s` lacks is never found in `s`. */
  lemma AbsentPatternNotFound<T>(s: seq<T>, pat: seq<T>, i: nat, from: int)
    requires i < |pat| && pat[i] !in s
    ensures IndexOf(s, pat, from) == -1
  {
  }

  lemma NotInSlice<T>(s: seq<T>, a: int, b: int, x: T)
    requires 0 <= a <= b <= |s|
    requires forall i :: a <= i < b ==> s[i] != x
    ensures x !in s[a..b]
  {
  }

  /** In a duplicate-free array an element does not occur before its index. */
  lemma NotBefore<T>(s: seq<T>, i: int)
    requires NoDup(s) && 0 <= i < |s|
    ensures s[i] !in s[..i]
  {
    forall j | 0 <= j < i
      ensures s[..i][j] != s[i]
    {
      assert s[j] != s[i];
    }
  }

  /** `s.substring(start, end)`: both bounds clamped into [0, |s|], and swapped
      when the start lies past the end. */
  function Substring(s: string, start: int, end: int): (r: string)
    ensures 0 <= start <= end <= |s| ==> r == s[start..end]
    ensures forall c :: c in r ==> c in s
  {
    var a := Clamp(start, |s|);
    var b := Clamp(end, |s|);
    if a <= b then s[a..b] else s[b..a]
  }

  /** The other cases of `substring`: bounds the other way round are swapped,
      a start at or below 0 reads from the beginning, and a bound at or past
      the length reads to the end from the other, clamped, bound. */
  lemma SubstringClampsAndSwaps(s: string, start: int, end: int)
    ensures 0 <= end <= start <= |s| ==> Substring(s, start, end) == s[end..start]
    ensures start <= 0 ==> Substring(s, start, end) == s[..Clamp(end, |s|)]
    ensures start >= |s| ==> Substring(s, start, end) == s[Clamp(end, |s|)..]
    ensures end >= |s| ==> Substring(s, start, end) == s[Clamp(start, |s|)..]
  {
  }

  /** `array.indexOf(x)`: the index of the first element equal to `x`, or -1. */
  function Find<T(==)>(s: seq<T>, x: T): (k: int)
    ensures -1 <= k < |s|
    ensures k >= 0 <==> x in s
    ensures k >= 0 ==> s[k] == x && x !in s[..k]
  {
    if s == [] then -1
    else if s[0] == x then 0
    else
      var k := Find(s[1..], x);
      if k < 0 then -1 else k + 1
  }

  /** `array.splice(array.indexOf(x), 1)` for an element that is present. */
  function Remove<T(==)>(s: seq<T>, x: T): (r: seq<T>)
    requires x in s
  {
    var k := Find(s, x);
    s[..k] + s[k + 1..]
  }

  /** Removing a present element from a duplicate-free array drops exactly that
      element and leaves no duplicate. */
  lemma RemoveDropsOnly<T>(s: seq<T>, x: T)
    requires x in s && NoDup(s)
    ensures |Remove(s, x)| == |s| - 1
    ensures NoDup(Remove(s, x))
    ensures forall y :: y in Remove(s, x) <==> y in s && y != x
  {
    var k := Find(s, x);
    var r := Remove(s, x);
    assert r == s[..k] + s[k + 1..];
    forall y
      ensures y in r <==> y in s && y != x
    {
      if y in r {
        var i :| 0 <= i < |r| && r[i] == y;
        if i < k { assert s[i] == y; } else { assert s[i + 1] == y; }
      }
      if y in s && y != x {
        var i :| 0 <= i < |s| && s[i] == y;
        assert i != k;
        if i < k { assert r[i] == y; } else { assert r[i - 1] == y; }
      }
    }
    forall i, j | 0 <= i < j < |r|
      ensures r[i] != r[j]
    {
      var i' := if i < k then i else i + 1;
      var j' := if j < k then j else j + 1;
      assert r[i] == s[i'] && r[j] == s[j'];
    }
  }

  /** The UTF-8 encoding of one Unicode scalar value. */
  function Utf8Char(c: char): (r: seq<byte>)
    ensures 1 <= |r| <= 4
    ensures |r| == 1 <==> c as int < 0x80
    ensures |r| == 1 ==> r[0] as int == c as int
    ensures |r| > 1 ==> forall i :: 0 <= i < |r| ==> r[i] >= 0x80
  {
    var n := c as int;
    if n < 0x80 then [n as byte]
    else if n < 0x800 then [(0xC0 + n / 0x40) as byte, (0x80 + n % 0x40) as byte]
    else if n < 0x1_0000 then
      [(0xE0 + n / 0x1000) as byte, (0x80 + (n / 0x40) % 0x40) as byte, (0x80 + n % 0x40) as byte]
    else
      [(0xF0 + n / 0x4_0000) as byte, (0x80 + (n / 0x1000) % 0x40) as byte,
       (0x80 + (n / 0x40) % 0x40) as byte, (0x80 + n % 0x40) as byte]
  }

  /** `Buffer.from(s)`: the UTF-8 bytes of a string. */
  function Utf8(s: string): seq<byte>
  {
    if s == [] then [] else Utf8Char(s[0]) + Utf8(s[1..])
  }

  /** `s.length` in JavaScript: UTF-16 code units, two for a character outside
      the Basic Multilingual Plane. */
  function Utf16Length(s: string): nat
  {
    if s == [] then 0 else (if s[0] as int < 0x1_0000 then 1 else 2) + Utf16Length(s[1..])
  }

  /** Only ASCII characters. */
  predicate IsAscii(s: string) {
    forall i :: 0 <= i < |s| ==> s[i] as int < 0x80
  }

  lemma {:induction false} Utf8Append(a: string, b: string)
    ensures Utf8(a + b) == Utf8(a) + Utf8(b)
  {
    if a == [] {
      assert a + b == b;
    } else {
      assert (a + b)[1..] == a[1..] + b;
      Utf8Append(a[1..], b);
    }
  }

  /** A string is never longer in UTF-16 code units than in UTF-8 bytes, and
      for ASCII the two lengths agree. */
  lemma {:induction false} Utf16NoLongerThanUtf8(s: string)
    ensures Utf16Length(s) <= |Utf8(s)|
    ensures IsAscii(s) ==> Utf16Length(s) == |Utf8(s)| == |s|
  {
    if s != [] {
      Utf16NoLongerThanUtf8(s[1..]);
      assert IsAscii(s) ==> IsAscii(s[1..]);
    }
  }

  /** A character absent from the string gives no byte of equal value: every
      byte of a multi-byte sequence is 0x80 or above. */
  lemma {:induction false} Utf8OmitsAsciiChar(s: string, c: char)
    requires c as int < 0x80 && c !in s
    ensures (c as int) as byte !in Utf8(s)
  {
    if s != [] {
      Utf8OmitsAsciiChar(s[1..], c);
      assert s[0] != c;
      assert (c as int) as byte !in Utf8Char(s[0]);
    }
  }
}
