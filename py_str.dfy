/**
 * The few operations on Python `str` that the backend's cleanup code relies on,
 * over `string` (a `seq<char>`): the `in` operator and `str.split(sep)` with an
 * explicit separator, both defined through a leftmost-occurrence search, and
 * `sep.join(parts)` as the inverse of the split.
 */
module PyStr {
  import opened Wrappers

  /** `sub` occurs in `s` starting at index `i`. */
  predicate OccursAt(s: string, sub: string, i: nat) {
    i + |sub| <= |s| && s[i..i + |sub|] == sub
  }

  /** The index of the leftmost occurrence of `sub` in `s` (what `s.find(sub)`
      would return), or None when there is none. */
  function Find(s: string, sub: string): (r: Option<nat>)
    ensures r.Some? ==> OccursAt(s, sub, r.value)
    ensures r.Some? ==> forall j: nat :: j < r.value ==> !OccursAt(s, sub, j)
    ensures r.None? ==> forall j: nat :: !OccursAt(s, sub, j)
  {
    FindFrom(s, sub, 0)
  }

  /** The leftmost occurrence of `sub` in `s` at or after index `k`. */
  function FindFrom(s: string, sub: string, k: nat): (r: Option<nat>)
    ensures r.Some? ==> k <= r.value && OccursAt(s, sub, r.value)
    ensures r.Some? ==> forall j: nat :: k <= j < r.value ==> !OccursAt(s, sub, j)
    ensures r.None? ==> forall j: nat :: k <= j ==> !OccursAt(s, sub, j)
    decreases |s| - k
  {
    if |s| < k + |sub| then None
    else if OccursAt(s, sub, k) then Some(k)
    else FindFrom(s, sub, k + 1)
  }

  /** Python's `sub in s`. */
  predicate Contains(s: string, sub: string) {
    Find(s, sub).Some?
  }

  /** `sub in s` holds exactly when `sub` occurs somewhere in `s`. */
  lemma ContainsIff(s: string, sub: string)
    ensures Contains(s, sub) <==> exists i: nat :: OccursAt(s, sub, i)
  {
  }

  /** `s.split(sep)` for a non-empty `sep`: the pieces between the occurrences of
      `sep`, found left to right without overlap. Python raises ValueError for an
      empty separator; the backend only passes non-empty literals. */
  function Split(s: string, sep: string): (parts: seq<string>)
    requires sep != []
    ensures |parts| >= 1
    decreases |s|
  {
    match Find(s, sep)
    case None => [s]
    case Some(i) => [s[..i]] + Split(s[i + |sep|..], sep)
  }

  /** `sep.join(parts)`. */
  function Join(parts: seq<string>, sep: string): string {
    if |parts| == 0 then []
    else if |parts| == 1 then parts[0]
    else parts[0] + sep + Join(parts[1..], sep)
  }

  /** Joining the pieces of a split with the same separator gives the string back. */
  lemma {:induction false} JoinSplit(s: string, sep: string)
    requires sep != []
    ensures Join(Split(s, sep), sep) == s
    decreases |s|
  {
    match Find(s, sep)
    case None =>
    case Some(i) =>
      var rest := s[i + |sep|..];
      var tail := Split(rest, sep);
      JoinSplit(rest, sep);
      var parts := [s[..i]] + tail;
      assert Split(s, sep) == parts;
      assert parts[1..] == tail;
      assert Join(parts, sep) == s[..i] + sep + Join(tail, sep);
      assert s[i..i + |sep|] == sep;
      assert s == s[..i] + s[i..i + |sep|] + rest;
  }

  /** No piece of a split contains the separator. */
  lemma {:induction false} SplitPiecesAvoidSeparator(s: string, sep: string)
    requires sep != []
    ensures forall k :: 0 <= k < |Split(s, sep)| ==> !Contains(Split(s, sep)[k], sep)
    decreases |s|
  {
    match Find(s, sep)
    case None =>
    case Some(i) =>
      var rest := s[i + |sep|..];
      SplitPiecesAvoidSeparator(rest, sep);
      NoOccurrenceInPrefix(s, sep, i);
      assert Split(s, sep) == [s[..i]] + Split(rest, sep);
  }

  /** Text before the leftmost occurrence of `sub` does not contain `sub`. */
  lemma NoOccurrenceInPrefix(s: string, sub: string, i: nat)
    requires sub != [] && i <= |s|
    requires forall j: nat :: j < i ==> !OccursAt(s, sub, j)
    ensures !Contains(s[..i], sub)
  {
    forall j: nat
      ensures !OccursAt(s[..i], sub, j)
    {
      if j + |sub| <= i {
        OccursInPrefix(s, sub, j, i);
      }
    }
    ContainsIff(s[..i], sub);
  }

  /** The split has a second piece exactly when the separator occurs: the
      condition under which the backend's `split(...)[1]` does not raise. */
  lemma SplitHasSecondPieceIff(s: string, sep: string)
    requires sep != []
    ensures |Split(s, sep)| >= 2 <==> Contains(s, sep)
  {
  }

  /** When `sep` first occurs at `i`, the first piece is the text before it and
      the second is the first piece of what follows it. */
  lemma SplitAtFirst(s: string, sep: string, i: nat)
    requires sep != []
    requires OccursAt(s, sep, i)
    requires forall j: nat :: j < i ==> !OccursAt(s, sep, j)
    ensures |Split(s, sep)| >= 2
    ensures Split(s, sep)[0] == s[..i]
    ensures Split(s, sep)[1] == Split(s[i + |sep|..], sep)[0]
  {
    assert Find(s, sep) == Some(i);
  }

  /** A string that does not contain the separator splits into itself alone. */
  lemma SplitWithoutSeparator(s: string, sep: string)
    requires sep != []
    requires !Contains(s, sep)
    ensures Split(s, sep) == [s]
  {
  }

  /** An occurrence of `sub` covering position `p` needs `s[p]` to be one of the
      characters of `sub`. */
  lemma Blocked(s: string, sub: string, p: nat)
    requires p < |s|
    requires forall k :: 0 <= k < |sub| ==> sub[k] != s[p]
    ensures forall j: nat :: j <= p < j + |sub| ==> !OccursAt(s, sub, j)
  {
    forall j: nat | j <= p < j + |sub|
      ensures !OccursAt(s, sub, j)
    {
      if j + |sub| <= |s| {
        assert s[j..j + |sub|][p - j] == s[p] != sub[p - j];
      }
    }
  }

  /** An occurrence that fits in a prefix is an occurrence in that prefix. */
  lemma OccursInPrefix(s: string, sub: string, j: nat, n: nat)
    requires j + |sub| <= n <= |s|
    ensures OccursAt(s, sub, j) <==> OccursAt(s[..n], sub, j)
  {
    assert s[..n][j..j + |sub|] == s[j..j + |sub|];
  }

  /** An occurrence of `sub` is also an occurrence of each prefix of `sub`. */
  lemma OccursPrefixOfSub(s: string, sub: string, j: nat, m: nat)
    requires m <= |sub|
    requires OccursAt(s, sub, j)
    ensures OccursAt(s, sub[..m], j)
  {
    assert s[j..j + m] == s[j..j + |sub|][..m];
  }

  /** A string that avoids a prefix of `sub` avoids `sub`. */
  lemma AvoidsExtension(s: string, sub: string, m: nat)
    requires m <= |sub|
    requires !Contains(s, sub[..m])
    ensures !Contains(s, sub)
  {
    forall j: nat
      ensures !OccursAt(s, sub, j)
    {
      if j + |sub| <= |s| {
        assert !OccursAt(s, sub[..m], j);
        assert s[j..j + |sub|][..m] == s[j..j + m];
      }
    }
    ContainsIff(s, sub);
  }

  /** Appending text that lacks the last character of `sep` cannot create an
      occurrence of `sep`. */
  lemma ContainsAppendWithoutLast(a: string, b: string, sep: string)
    requires sep != []
    requires !Contains(a, sep)
    requires forall k :: 0 <= k < |b| ==> b[k] != sep[|sep| - 1]
    ensures !Contains(a + b, sep)
  {
    var s := a + b;
    forall j: nat
      ensures !OccursAt(s, sep, j)
    {
      var last := j + |sep| - 1;
      if last < |a| {
        OccursInPrefix(s, sep, j, |a|);
        assert s[..|a|] == a;
      } else if last < |s| {
        Blocked(s, sep[|sep| - 1..], last);
        assert s[j..j + |sep|][|sep| - 1] == b[last - |a|] != sep[|sep| - 1];
      }
    }
    ContainsIff(s, sep);
  }
}
