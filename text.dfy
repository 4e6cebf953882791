/** The Python string operations the classifiers rely on, over `string` (= seq<char>):
    `lower`, the `in` operator on strings, `strip`, `split`, `str.join` and `rfind`. */
module Text {

  /** `str.lower` on one character; only the ASCII capitals are mapped. */
  function LowerChar(c: char): char {
    if 'A' <= c <= 'Z' then (c as int + 32) as char else c
  }

  /** `s.lower()` (ASCII letters only). */
  function Lower(s: string): (r: string)
    ensures |r| == |s|
    ensures forall i :: 0 <= i < |s| ==> r[i] == LowerChar(s[i])
  {
    seq(|s|, i requires 0 <= i < |s| => LowerChar(s[i]))
  }

  /** `h.startswith(n)`. */
  predicate IsPrefix(n: string, h: string) {
    n == [] || (h != [] && n[0] == h[0] && IsPrefix(n[1..], h[1..]))
  }

  /** Python's `n in h` on two strings: `n` occurs in `h` as a contiguous block. */
  predicate Contains(h: string, n: string) {
    IsPrefix(n, h) || (h != [] && Contains(h[1..], n))
  }

  lemma {:induction false} IsPrefixIff(n: string, h: string)
    ensures IsPrefix(n, h) <==> |n| <= |h| && h[..|n|] == n
  {
    if n != [] && h != [] {
      IsPrefixIff(n[1..], h[1..]);
      if |n| <= |h| && h[..|n|] == n {
        assert h[1..][..|n| - 1] == n[1..];
      }
      if IsPrefix(n, h) {
        assert h[..|n|] == [h[0]] + h[1..][..|n| - 1];
      }
    }
  }

  /** `n` occurs in `h` starting at position `i`. */
  predicate OccursAt(h: string, n: string, i: int) {
    0 <= i <= |h| - |n| && h[i..i + |n|] == n
  }

  /** The substring test agrees with the index-based definition of an occurrence. */
  lemma {:induction false} ContainsIff(h: string, n: string)
    ensures Contains(h, n) <==> exists i :: OccursAt(h, n, i)
  {
    IsPrefixIff(n, h);
    if IsPrefix(n, h) {
      assert OccursAt(h, n, 0);
    }
    if h != [] {
      ContainsIff(h[1..], n);
      if Contains(h[1..], n) {
        var i :| OccursAt(h[1..], n, i);
        assert h[i + 1..i + 1 + |n|] == h[1..][i..i + |n|];
        assert OccursAt(h, n, i + 1);
      }
      if exists i :: OccursAt(h, n, i) {
        var i :| OccursAt(h, n, i);
        if i > 0 {
          assert h[1..][i - 1..i - 1 + |n|] == h[i..i + |n|];
          assert OccursAt(h[1..], n, i - 1);
        }
      }
    }
  }

  /** Every string occurs in a string built around it. */
  lemma ContainsInfix(p: string, n: string, q: string)
    ensures Contains(p + n + q, n)
  {
    var h := p + n + q;
    assert OccursAt(h, n, |p|);
    ContainsIff(h, n);
  }

  /** A string longer than the text cannot occur in it. */
  lemma LongerNotContained(h: string, n: string)
    requires |h| < |n|
    ensures !Contains(h, n)
  {
    ContainsIff(h, n);
  }

  lemma {:induction false} PrefixChar(n: string, h: string, c: char)
    requires IsPrefix(n, h) && c in n
    ensures c in h
  {
    if n[0] != c {
      PrefixChar(n[1..], h[1..], c);
    }
  }

  /** A string holding a character the text lacks cannot occur in it. */
  lemma {:induction false} MissingChar(h: string, n: string, c: char)
    requires c in n && c !in h
    ensures !Contains(h, n)
  {
    if IsPrefix(n, h) {
      PrefixChar(n, h, c);
    }
    if h != [] {
      MissingChar(h[1..], n, c);
    }
  }

  /** Where the k-th character of `n` cannot be found from position k of the text on,
      `n` does not occur in it. */
  lemma MissingCharAt(h: string, n: string, k: nat)
    requires k < |n| && (k <= |h| ==> n[k] !in h[k..])
    ensures !Contains(h, n)
  {
    ContainsIff(h, n);
  }

  /** An occurrence of `n` in `p + q` that cannot start inside `p` lies in `q`. */
  lemma SkipPrefix(p: string, q: string, n: string)
    requires n != [] && n[0] !in p
    ensures Contains(p + q, n) ==> Contains(q, n)
  {
    ContainsIff(p + q, n);
    ContainsIff(q, n);
    if Contains(p + q, n) {
      var i :| OccursAt(p + q, n, i);
      assert (p + q)[i] == n[0];
      assert OccursAt(q, n, i - |p|);
    }
  }

  /** A string that is not a prefix of a non-empty text occurs in it only in its tail. */
  lemma NotAtHead(h: string, n: string)
    requires h != [] && !IsPrefix(n, h) && !Contains(h[1..], n)
    ensures !Contains(h, n)
  {
  }

  /** The characters Python's `str.isspace` accepts (what `strip()` removes). */
  predicate IsSpace(c: char) {
    c == ' ' || c == '\t' || c == '\n' || c == '\r' || c == '\U{000B}' || c == '\U{000C}'
    || ('\U{001C}' <= c <= '\U{001F}') || c == '\U{0085}' || c == '\U{00A0}' || c == '\U{1680}'
    || ('\U{2000}' <= c <= '\U{200A}') || c == '\U{2028}' || c == '\U{2029}' || c == '\U{202F}'
    || c == '\U{205F}' || c == '\U{3000}'
  }

  /** Text without ASCII capitals is its own lower-cased form. */
  lemma LowerUnchanged(s: string)
    requires forall k :: 0 <= k < |s| ==> !('A' <= s[k] <= 'Z')
    ensures Lower(s) == s
  {
  }

  /** A letter absent from a text in both cases is absent from its lower-cased form. */
  lemma LowerMissing(s: string, c: char)
    requires 'a' <= c <= 'z'
    requires forall k :: 0 <= k < |s| ==> s[k] != c && s[k] != (c as int - 32) as char
    ensures c !in Lower(s)
  {
  }

  /** Lower-casing keeps a prefix a prefix. */
  lemma LowerPrefix(p: string, s: string)
    requires IsPrefix(p, s)
    ensures IsPrefix(Lower(p), Lower(s))
  {
    IsPrefixIff(p, s);
    IsPrefixIff(Lower(p), Lower(s));
    assert Lower(s)[..|p|] == Lower(p);
  }

  /** Drops the leading characters that satisfy `drop`. */
  function TrimStart(s: string, drop: char -> bool): string {
    if s != [] && drop(s[0]) then TrimStart(s[1..], drop) else s
  }

  /** What `TrimStart` keeps is a suffix that starts with a kept character, and what it
      removed is removable. */
  lemma {:induction false} TrimStartSpec(s: string, drop: char -> bool)
    ensures var r := TrimStart(s, drop);
      |r| <= |s| && r == s[|s| - |r|..]
      && (forall k :: 0 <= k < |s| - |r| ==> drop(s[k]))
      && (r != [] ==> !drop(r[0]))
  {
    var r := TrimStart(s, drop);
    if s != [] && drop(s[0]) {
      var tail := s[1..];
      TrimStartSpec(tail, drop);
      assert r == TrimStart(tail, drop);
      assert r == tail[|tail| - |r|..] == s[|s| - |r|..];
      forall k | 0 <= k < |s| - |r| ensures drop(s[k]) {
        if k > 0 {
          assert s[k] == tail[k - 1];
        }
      }
    } else {
      assert r == s;
    }
  }

  /** Drops the trailing characters that satisfy `drop`. */
  function TrimEnd(s: string, drop: char -> bool): string {
    if s != [] && drop(s[|s| - 1]) then TrimEnd(s[..|s| - 1], drop) else s
  }

  /** What `TrimEnd` keeps is a prefix that ends with a kept character, and what it removed
      is removable. */
  lemma {:induction false} TrimEndSpec(s: string, drop: char -> bool)
    ensures var r := TrimEnd(s, drop);
      |r| <= |s| && r == s[..|r|]
      && (forall k :: |r| <= k < |s| ==> drop(s[k]))
      && (r != [] ==> !drop(r[|r| - 1]))
  {
    if s != [] && drop(s[|s| - 1]) {
      TrimEndSpec(s[..|s| - 1], drop);
    }
  }

  /** `s.strip(chars)`: both ends trimmed of the characters that satisfy `drop`. */
  function StripWhere(s: string, drop: char -> bool): string {
    TrimEnd(TrimStart(s, drop), drop)
  }

  /** `s.strip()`. */
  function Strip(s: string): string {
    StripWhere(s, IsSpace)
  }

  /** `r` is the block `s[i..i + |r|]`, everything before and after it satisfies `drop`, and
      its two ends do not. */
  predicate StrippedAt(s: string, r: string, i: int, drop: char -> bool) {
    0 <= i <= |s| - |r|
    && r == s[i..i + |r|]
    && (forall k :: 0 <= k < i ==> drop(s[k]))
    && (forall k :: i + |r| <= k < |s| ==> drop(s[k]))
    && (r != [] ==> !drop(r[0]) && !drop(r[|r| - 1]))
  }

  /** What `strip` keeps is one block of the input whose two ends are kept characters, and
      everything it removed on either side is removable. */
  lemma StripWhereShape(s: string, drop: char -> bool)
    ensures StrippedAt(s, StripWhere(s, drop), |s| - |TrimStart(s, drop)|, drop)
  {
    var t := TrimStart(s, drop);
    var r := TrimEnd(t, drop);
    TrimStartSpec(s, drop);
    TrimEndSpec(t, drop);
    BlockOfSuffix(s, t, r, drop);
  }

  /** A block cut from a suffix whose dropped prefix and tail are all removable is what a
      strip leaves. */
  lemma BlockOfSuffix(s: string, t: string, r: string, drop: char -> bool)
    requires |t| <= |s| && t == s[|s| - |t|..] && (forall k :: 0 <= k < |s| - |t| ==> drop(s[k]))
    requires t != [] ==> !drop(t[0])
    requires |r| <= |t| && r == t[..|r|] && (forall k :: |r| <= k < |t| ==> drop(t[k]))
    requires r != [] ==> !drop(r[|r| - 1])
    ensures StrippedAt(s, r, |s| - |t|, drop)
  {
    var i := |s| - |t|;
    assert r == s[i..i + |r|];
    forall k | i + |r| <= k < |s| ensures drop(s[k]) {
      assert s[k] == t[k - i];
    }
    if r != [] {
      assert r[0] == t[0];
    }
  }

  /** Stripping removes no character that it is not told to remove: what it keeps is
      drawn from the input. */
  lemma StripWhereChars(s: string, drop: char -> bool)
    ensures forall c :: c in StripWhere(s, drop) ==> c in s
  {
    StripWhereShape(s, drop);
    var r := StripWhere(s, drop);
    var i := |s| - |TrimStart(s, drop)|;
    forall c | c in r ensures c in s {
      var k :| 0 <= k < |r| && r[k] == c;
      assert s[i + k] == c;
    }
  }

  /** A string with nothing to remove at either end is left as it is. */
  lemma StripWhereKeeps(s: string, drop: char -> bool)
    requires s != [] ==> !drop(s[0]) && !drop(s[|s| - 1])
    ensures StripWhere(s, drop) == s
  {
  }

  /** A string wrapped in one removable character on each side, with nothing removable
      at its own ends, is unwrapped by `strip`. */
  lemma StripWrapped(inner: string, q: char, drop: char -> bool)
    requires drop(q)
    requires inner != [] ==> !drop(inner[0]) && !drop(inner[|inner| - 1])
    ensures StripWhere([q] + inner + [q], drop) == inner
  {
    var wrapped := [q] + inner + [q];
    var tail := inner + [q];
    assert wrapped[1..] == tail;
    assert TrimStart(wrapped, drop) == TrimStart(tail, drop);
    if inner == [] {
      assert tail[1..] == [];
      assert TrimStart(tail, drop) == TrimStart([], drop) == [];
    } else {
      assert TrimStart(tail, drop) == tail;
      assert tail[..|tail| - 1] == inner;
      assert TrimEnd(tail, drop) == TrimEnd(inner, drop);
    }
  }

  /** Position of the first `c` in `s` (`s.index(c)`). */
  function IndexOf(s: string, c: char): (i: nat)
    requires c in s
    ensures i < |s| && s[i] == c && c !in s[..i]
  {
    if s[0] == c then 0 else 1 + IndexOf(s[1..], c)
  }

  lemma IndexOfAt(s: string, c: char, k: nat)
    requires k < |s| && s[k] == c && c !in s[..k]
    ensures IndexOf(s, c) == k
  {
    var i := IndexOf(s, c);
    assert s[..k][..] == s[..k];
  }

  /** `s.rfind(c)`: the position of the last `c`, or -1. */
  function LastIndexOf(s: string, c: char): (i: int)
    ensures -1 <= i < |s|
    ensures i >= 0 ==> s[i] == c
    ensures forall k :: i < k < |s| ==> s[k] != c
  {
    if s == [] then -1 else if s[|s| - 1] == c then |s| - 1 else LastIndexOf(s[..|s| - 1], c)
  }

  /** The last occurrence is the one after which `c` no longer occurs (-1 when it never
      does). */
  lemma LastIndexOfIs(s: string, c: char, i: int)
    requires -1 <= i < |s| && (i >= 0 ==> s[i] == c)
    requires forall k :: i < k < |s| ==> s[k] != c
    ensures LastIndexOf(s, c) == i
  {
  }

  /** `s.split(c)`: the pieces between the occurrences of `c`, in order. */
  function SplitOn(s: string, c: char): (parts: seq<string>)
    ensures |parts| >= 1
    ensures c in s ==> |parts| >= 2
    ensures forall k :: 0 <= k < |parts| ==> c !in parts[k]
    decreases |s|
  {
    if c !in s then [s]
    else
      var i := IndexOf(s, c);
      [s[..i]] + SplitOn(s[i + 1..], c)
  }

  /** `sep.join(parts)`. */
  function Join(parts: seq<string>, sep: string): string {
    if |parts| == 0 then ""
    else if |parts| == 1 then parts[0]
    else parts[0] + sep + Join(parts[1..], sep)
  }

  /** Splitting on a character and joining back with it gives the input back. */
  lemma {:induction false} JoinSplitOn(s: string, c: char)
    ensures Join(SplitOn(s, c), [c]) == s
    decreases |s|
  {
    if c in s {
      var i := IndexOf(s, c);
      JoinSplitOn(s[i + 1..], c);
      assert s == s[..i] + [c] + s[i + 1..];
    }
  }

  /** The second piece of `s.split(c)` is the text between the first and the second `c`
      (or the end). */
  lemma {:induction false} SecondPiece(s: string, c: char)
    requires c in s
    ensures var i := IndexOf(s, c);
      var rest := s[i + 1..];
      SplitOn(s, c)[1] == if c in rest then rest[..IndexOf(rest, c)] else rest
  {
  }
}
