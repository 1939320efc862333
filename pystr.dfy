/** The few pieces of Python's `str` behaviour the program relies on:
    repetition `s * n`, the prefix slice `s[:n]`, general slices `s[a:b]`
    with negative bounds, and `find` / `rfind` with their -1 result. */
module PyStr {

  /** `Optional[T]`: no value, or a value. */
  datatype Option<T> = None | Some(value: T)

  /** Python's `s * n`: `n` copies of `s`; a count of zero or less gives "". */
  function Repeat(s: string, n: int): string
    decreases if n < 0 then 0 else n
  {
    if n <= 0 then "" else s + Repeat(s, n - 1)
  }

  /** `s * n` holds `n` copies' worth of characters. */
  lemma {:induction false} RepeatLength(s: string, n: int)
    ensures |Repeat(s, n)| == if n <= 0 then 0 else n * |s|
    decreases if n < 0 then 0 else n
  {
    if n > 0 {
      RepeatLength(s, n - 1);
    }
  }

  /** Repeating one character gives a string of exactly that many copies of it. */
  lemma {:induction false} RepeatChar(c: char, n: int)
    ensures |Repeat([c], n)| == (if n <= 0 then 0 else n)
    ensures forall k :: 0 <= k < |Repeat([c], n)| ==> Repeat([c], n)[k] == c
    decreases if n < 0 then 0 else n
  {
    if n > 0 {
      RepeatChar(c, n - 1);
    }
  }

  /** Python's `s[:n]` for `n >= 0`. */
  function Take(s: string, n: nat): (r: string)
    ensures |r| == if |s| <= n then |s| else n
    ensures r <= s
  {
    if |s| <= n then s else s[..n]
  }

  /** How Python turns a slice bound into a position in a string of length `n`:
      a negative bound counts from the end, and the result is clamped to `[0, n]`. */
  function SliceBound(i: int, n: nat): nat
  {
    if i < 0 then (if i + n < 0 then 0 else i + n)
    else if i > n then n
    else i
  }

  /** Python's `s[a:b]`: empty when the normalised bounds are crossed. */
  function Slice(s: string, a: int, b: int): string
  {
    var lo, hi := SliceBound(a, |s|), SliceBound(b, |s|);
    if lo < hi then s[lo..hi] else ""
  }

  /** Python's `s[:i] + s[i:] == s`, for every `i`, negative or past the end included. */
  lemma SliceSplit(s: string, i: int)
    ensures Slice(s, 0, i) + Slice(s, i, |s|) == s
  {
    var p := SliceBound(i, |s|);
    assert Slice(s, 0, i) == s[..p];
    assert Slice(s, i, |s|) == s[p..];
  }

  /** With a non-negative end and no start, a slice is the prefix `s[:n]`. */
  lemma SlicePrefix(s: string, n: nat)
    ensures Slice(s, 0, n) == Take(s, n)
  {
  }

  /** `s[-k:]` holds the last `k` characters, or all of `s` when it is shorter. */
  lemma SliceLast(s: string, k: int)
    requires k > 0
    ensures |Slice(s, -k, |s|)| == if k < |s| then k else |s|
    ensures Slice(s, -k, |s|) == s[|s| - |Slice(s, -k, |s|)|..]
  {
  }

  /** `sub` occurs in `s` at position `k`. */
  predicate OccursAt(s: string, sub: string, k: int)
  {
    0 <= k && k + |sub| <= |s| && s[k..k + |sub|] == sub
  }

  /** Where Python's `find(sub, start)` begins its search: a negative start
      counts from the end and is clamped at 0 (a start past the end finds nothing). */
  function FindStart(start: int, n: nat): nat
  {
    if start >= 0 then start else if start + n < 0 then 0 else start + n
  }

  /** The first occurrence of `sub` in `s` at or after position `k`, or -1. */
  function FindFrom(s: string, sub: string, k: nat): (r: int)
    ensures r == -1 || (k <= r && OccursAt(s, sub, r))
    ensures r == -1 ==> forall p :: k <= p ==> !OccursAt(s, sub, p)
    ensures r != -1 ==> forall p :: k <= p < r ==> !OccursAt(s, sub, p)
    decreases |s| - k
  {
    if k + |sub| > |s| then -1
    else if s[k..k + |sub|] == sub then k
    else FindFrom(s, sub, k + 1)
  }

  /** Python's `s.find(sub, start)`. */
  function Find(s: string, sub: string, start: int): (r: int)
    ensures r == -1 || (FindStart(start, |s|) <= r && OccursAt(s, sub, r))
    ensures r == -1 ==> forall p :: FindStart(start, |s|) <= p ==> !OccursAt(s, sub, p)
    ensures r != -1 ==> forall p :: FindStart(start, |s|) <= p < r ==> !OccursAt(s, sub, p)
  {
    FindFrom(s, sub, FindStart(start, |s|))
  }

  /** The last occurrence of `sub` in `s` at or before position `k`, or -1. */
  function RFindUpTo(s: string, sub: string, k: int): (r: int)
    requires k + |sub| <= |s|
    ensures r == -1 || (r <= k && OccursAt(s, sub, r))
    ensures r == -1 ==> forall p :: p <= k ==> !OccursAt(s, sub, p)
    ensures r != -1 ==> forall p :: r < p <= k ==> !OccursAt(s, sub, p)
    decreases k + 1
  {
    if k < 0 then -1
    else if s[k..k + |sub|] == sub then k
    else RFindUpTo(s, sub, k - 1)
  }

  /** Python's `s.rfind(sub)`: the last occurrence of `sub`, or -1. */
  function RFind(s: string, sub: string): (r: int)
    ensures r == -1 || OccursAt(s, sub, r)
    ensures r == -1 ==> forall p :: !OccursAt(s, sub, p)
    ensures r != -1 ==> forall p :: r < p ==> !OccursAt(s, sub, p)
  {
    if |sub| > |s| then -1 else RFindUpTo(s, sub, |s| - |sub|)
  }

  /** `find` gives the first occurrence at or after the (non-negative) start. */
  lemma FindFirst(s: string, sub: string, start: nat, p: nat)
    requires start <= p && OccursAt(s, sub, p)
    requires forall k :: start <= k < p ==> !OccursAt(s, sub, k)
    ensures Find(s, sub, start) == p
  {
    var r := Find(s, sub, start);
    assert r != -1;
    assert !(r < p) && !(p < r);
  }

  /** `rfind` gives the last occurrence. */
  lemma RFindLast(s: string, sub: string, p: nat)
    requires OccursAt(s, sub, p)
    requires forall k :: p < k ==> !OccursAt(s, sub, k)
    ensures RFind(s, sub) == p
  {
    var r := RFind(s, sub);
    assert r != -1;
    assert !(r < p) && !(p < r);
  }

  /** A one-character string occurs exactly at the positions holding that character. */
  lemma OccursAtChar(s: string, c: char, k: int)
    ensures OccursAt(s, [c], k) <==> 0 <= k < |s| && s[k] == c
  {
    if 0 <= k < |s| {
      assert s[k..k + 1] == [s[k]];
    }
  }

  /** Python's `c in s` for a one-character `c`. */
  predicate ContainsChar(s: string, c: char)
  {
    exists k :: 0 <= k < |s| && s[k] == c
  }

  /** The number of times `c` occurs in `s`. */
  function CountChar(s: string, c: char): (n: nat)
    ensures n <= |s|
    ensures n == 0 <==> !ContainsChar(s, c)
  {
    if |s| == 0 then 0
    else CountChar(s[..|s| - 1], c) + (if s[|s| - 1] == c then 1 else 0)
  }

  lemma {:induction false} CountCharAppend(a: string, b: string, c: char)
    ensures CountChar(a + b, c) == CountChar(a, c) + CountChar(b, c)
    decreases |b|
  {
    if |b| == 0 {
      assert a + b == a;
    } else {
      assert (a + b)[..|a + b| - 1] == a + b[..|b| - 1];
      CountCharAppend(a, b[..|b| - 1], c);
    }
  }
}
