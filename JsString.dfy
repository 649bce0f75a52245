/**
 * The JavaScript string primitives the load balancer is written with:
 * `indexOf`, `lastIndexOf`, `substring`, `replace` (with a string pattern and a
 * replacement free of `$` patterns) and `toLowerCase` (restricted to ASCII).
 * Indices follow JavaScript: -1 means "not found".
 */
module JsString {

  /** `p` occurs in `s` starting at index `i`. */
  predicate OccursAt(s: string, p: string, i: int) {
    0 <= i && i + |p| <= |s| && s[i..i + |p|] == p
  }

  /** How `indexOf` and `substring` clamp a position into `[0, n]`. */
  function Clamp(i: int, n: nat): (r: nat)
    ensures r <= n
    ensures 0 <= i <= n ==> r == i
  {
    if i < 0 then 0 else if i > n then n else i
  }

  /** There is an occurrence of `p` in `s` at or after `k`. */
  predicate OccursFrom(s: string, p: string, k: nat) {
    exists j :: k <= j <= |s| && OccursAt(s, p, j)
  }

  /** An occurrence at `j` means there is a first occurrence at or after `k`. */
  lemma {:induction false} FirstOccurrenceExists(s: string, p: string, k: nat, j: int)
    requires k <= j && OccursAt(s, p, j)
    ensures exists r :: k <= r && OccursAt(s, p, r) && forall i :: k <= i < r ==> !OccursAt(s, p, i)
    decreases j - k
  {
    if !OccursAt(s, p, k) {
      FirstOccurrenceExists(s, p, k + 1, j);
    }
  }

  /**
   * `s.indexOf(p, from)`: the first occurrence of `p` at or after `from`
   * (clamped into the string), or -1 when there is none.
   */
  function IndexOf(s: string, p: string, from: int): (r: int)
    ensures -1 <= r <= |s|
    ensures r == -1 ==> forall j :: Clamp(from, |s|) <= j ==> !OccursAt(s, p, j)
    ensures r != -1 ==> Clamp(from, |s|) <= r && OccursAt(s, p, r)
    ensures r != -1 ==> forall j :: Clamp(from, |s|) <= j < r ==> !OccursAt(s, p, j)
  {
    var k := Clamp(from, |s|);
    if !OccursFrom(s, p, k) then -1
    else
      var j :| k <= j <= |s| && OccursAt(s, p, j);
      FirstOccurrenceExists(s, p, k, j);
      var r :| k <= r <= |s| && OccursAt(s, p, r) && forall i :: k <= i < r ==> !OccursAt(s, p, i);
      r
  }

  /** `s.lastIndexOf(c)` for a one-character needle. */
  function LastIndexOf(s: string, c: char): (r: int)
    ensures -1 <= r < |s|
    ensures r == -1 <==> c !in s
    ensures r != -1 ==> s[r] == c && c !in s[r + 1..]
  {
    if |s| == 0 then -1
    else if s[|s| - 1] == c then |s| - 1
    else
      var r := LastIndexOf(s[..|s| - 1], c);
      assert s == s[..|s| - 1] + [s[|s| - 1]];
      r
  }

  /** `s.substring(start, end)`: both ends clamped, then swapped when out of order. */
  function Substring(s: string, start: int, end: int): string {
    var a, b := Clamp(start, |s|), Clamp(end, |s|);
    if a <= b then s[a..b] else s[b..a]
  }

  /** `s.replace(pattern, replacement)`: only the first occurrence is replaced. */
  function Replace(s: string, pattern: string, replacement: string): string {
    var i := IndexOf(s, pattern, 0);
    if i == -1 then s else s[..i] + replacement + s[i + |pattern|..]
  }

  function LowerChar(c: char): char {
    if 'A' <= c <= 'Z' then (c as int - 'A' as int + 'a' as int) as char else c
  }

  /** `s.toLowerCase()` on the ASCII letters. */
  function Lower(s: string): (r: string)
    ensures |r| == |s|
  {
    seq(|s|, i requires 0 <= i < |s| => LowerChar(s[i]))
  }

  // ---------------------------------------------------------------------
  // Facts about the primitives, used by the URI lemmas.

  /** Regrouping a concatenation of four pieces after a prefix. */
  lemma ConcatRegroup(x: string, a: string, b: string, c: string, d: string)
    ensures x + (a + b + c + d) == x + a + b + c + d
  {
  }

  /** A splice at or after `n` leaves the first `n` characters alone. */
  lemma SplicePrefix(s: string, k: nat, v: string, w: string, n: nat)
    requires n <= k && k + |v| <= |s|
    ensures var r := s[..k] + w + s[k + |v|..];
      n <= |r| && r[..n] == s[..n]
  {
    var r := s[..k] + w + s[k + |v|..];
    assert r[..n] == s[..k][..n];
  }

  lemma OccursAtHead(s: string, p: string, i: int)
    requires OccursAt(s, p, i) && |p| > 0
    ensures s[i] == p[0]
  {
    assert s[i..i + |p|][0] == s[i];
  }

  lemma OccursAtChar(s: string, c: char, i: int)
    ensures OccursAt(s, [c], i) <==> 0 <= i < |s| && s[i] == c
  {
    if 0 <= i < |s| {
      assert s[i..i + 1] == [s[i]];
    }
  }

  /** The first occurrence is the one at `i` when nothing before it (from `from`) starts like `p`. */
  lemma IndexOfByHead(s: string, p: string, from: nat, i: int)
    requires |p| > 0 && from <= i && OccursAt(s, p, i)
    requires forall j :: from <= j < i ==> s[j] != p[0]
    ensures IndexOf(s, p, from) == i
  {
    var r := IndexOf(s, p, from);
    if r != i {
      assert r < i;
      OccursAtHead(s, p, r);
    }
  }

  /** A one-character search finds the first position holding that character. */
  lemma IndexOfChar(s: string, c: char, from: nat, i: int)
    requires from <= i < |s| && s[i] == c
    requires forall j :: from <= j < i ==> s[j] != c
    ensures IndexOf(s, [c], from) == i
  {
    OccursAtChar(s, c, i);
    IndexOfByHead(s, [c], from, i);
  }

  /** A one-character search fails when the character does not occur from `from` on. */
  lemma IndexOfCharAbsent(s: string, c: char, from: nat)
    requires from <= |s|
    requires forall j :: from <= j < |s| ==> s[j] != c
    ensures IndexOf(s, [c], from) == -1
  {
    var r := IndexOf(s, [c], from);
    if r != -1 {
      OccursAtChar(s, c, r);
    }
  }

  /** A search that succeeds inside a common prefix gives the same answer on both strings. */
  lemma IndexOfSharedPrefix(s: string, t: string, p: string, from: nat, n: nat)
    requires n <= |s| && n <= |t| && s[..n] == t[..n] && from <= n
    requires IndexOf(s, p, from) != -1 && IndexOf(s, p, from) + |p| <= n
    ensures IndexOf(t, p, from) == IndexOf(s, p, from)
  {
    var r := IndexOf(s, p, from);
    forall j | from <= j <= r
      ensures OccursAt(t, p, j) <==> OccursAt(s, p, j)
    {
      assert s[j..j + |p|] == s[..n][j..j + |p|];
      assert t[j..j + |p|] == t[..n][j..j + |p|];
    }
  }

  /** Replacing the first occurrence, when it is known to be at `i`. */
  lemma ReplaceAt(s: string, pattern: string, replacement: string, i: int)
    requires IndexOf(s, pattern, 0) == i && i != -1
    ensures Replace(s, pattern, replacement) == s[..i] + replacement + s[i + |pattern|..]
  {
  }

  /** `replace` acts on the first occurrence, wherever it is. */
  lemma ReplaceFirst(s: string, pattern: string, replacement: string, i: nat)
    requires OccursAt(s, pattern, i)
    requires forall j :: 0 <= j < i ==> !OccursAt(s, pattern, j)
    ensures Replace(s, pattern, replacement) == s[..i] + replacement + s[i + |pattern|..]
  {
  }

  /** In `a + p + b` with no occurrence of `p` starting inside `a`, `replace` swaps exactly that `p`. */
  lemma ReplaceAfterPrefix(a: string, p: string, b: string, q: string)
    requires forall j :: 0 <= j < |a| ==> !OccursAt(a + p + b, p, j)
    ensures Replace(a + p + b, p, q) == a + q + b
  {
    var s := a + p + b;
    assert OccursAt(s, p, |a|) by {
      assert s[|a|..|a| + |p|] == p;
    }
    ReplaceFirst(s, p, q, |a|);
    assert s[..|a|] == a;
    assert s[|a| + |p|..] == b;
  }

  /** In `a + p + b` with the first character of `p` absent from `a`, `replace` swaps exactly that `p`. */
  lemma ReplaceSplit(a: string, p: string, b: string, q: string)
    requires p != [] && p[0] !in a
    ensures Replace(a + p + b, p, q) == a + q + b
  {
    var s := a + p + b;
    forall j | 0 <= j < |a| ensures !OccursAt(s, p, j) {
      if OccursAt(s, p, j) {
        OccursAtHead(s, p, j);
      }
    }
    ReplaceAfterPrefix(a, p, b, q);
  }

  /** Regrouping a concatenation of three pieces. */
  lemma ConcatAssoc(a: string, b: string, c: string)
    ensures a + (b + c) == a + b + c
  {
  }

  lemma ReplaceAbsent(s: string, pattern: string, replacement: string)
    requires forall j :: !OccursAt(s, pattern, j)
    ensures Replace(s, pattern, replacement) == s
  {
  }
}
