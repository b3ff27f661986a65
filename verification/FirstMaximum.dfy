/** Keeping the best entry seen so far, where only a strictly better one replaces it. */
module FirstMaximum {
  import opened Wrappers

  /** A strict comparison under which being incomparable is transitive too. */
  ghost predicate Ranking<T(!new)>(better: (T, T) -> bool) {
    && (forall x, y :: better(x, y) ==> !better(y, x))
    && (forall x, y, z :: better(x, z) ==> better(x, y) || better(y, z))
  }

  /** What is kept after seeing the next entry. */
  function Keep<T>(better: (T, T) -> bool, best: Option<T>, x: T): Option<T> {
    if best.None? || better(x, best.value) then Some(x) else best
  }

  function Best<T>(better: (T, T) -> bool, s: seq<T>): (r: Option<T>)
    ensures r.None? <==> s == []
  {
    if s == [] then None else Keep(better, Best(better, s[..|s| - 1]), s[|s| - 1])
  }

  lemma BestSnoc<T>(better: (T, T) -> bool, s: seq<T>, x: T)
    ensures Best(better, s + [x]) == Keep(better, Best(better, s), x)
  {
    assert (s + [x])[..|s|] == s;
  }

  /** s[i] is beaten by no entry and beats every earlier one. */
  ghost predicate IsFirstMaximum<T>(better: (T, T) -> bool, s: seq<T>, i: nat) {
    && i < |s|
    && (forall j :: 0 <= j < |s| ==> !better(s[j], s[i]))
    && (forall j :: 0 <= j < i ==> better(s[i], s[j]))
  }

  /** The kept entry is the first of the maximal ones. */
  lemma {:induction false} BestIsFirstMaximum<T(!new)>(better: (T, T) -> bool, s: seq<T>) returns (i: nat)
    requires Ranking(better) && s != []
    ensures IsFirstMaximum(better, s, i) && Best(better, s) == Some(s[i])
  {
    var n := |s| - 1;
    if n == 0 {
      i := 0;
    } else {
      var k := BestIsFirstMaximum(better, s[..n]);
      if better(s[n], s[k]) {
        i := n;
        forall j | 0 <= j < n ensures better(s[n], s[j]) && !better(s[j], s[n]) {
          assert !better(s[..n][j], s[..n][k]);
          assert better(s[n], s[j]);
        }
      } else {
        i := k;
        forall j | 0 <= j < n ensures !better(s[j], s[k]) && (j < k ==> better(s[k], s[j])) {
          assert s[..n][j] == s[j];
        }
      }
    }
  }

  /** The better of two choices, the first one when they tie. */
  function Choose<T>(better: (T, T) -> bool, a: Option<T>, b: Option<T>): Option<T> {
    if b.None? then a else Keep(better, a, b.value)
  }

  /** Choosing over a concatenation is choosing between the two choices. */
  lemma {:induction false} BestConcat<T(!new)>(better: (T, T) -> bool, a: seq<T>, b: seq<T>)
    requires Ranking(better)
    ensures Best(better, a + b) == Choose(better, Best(better, a), Best(better, b))
    decreases |b|
  {
    if b == [] {
      assert a + b == a;
    } else {
      var n := |b| - 1;
      assert a + b == (a + b[..n]) + [b[n]];
      BestSnoc(better, a + b[..n], b[n]);
      BestConcat(better, a, b[..n]);
      assert b == b[..n] + [b[n]];
      BestSnoc(better, b[..n], b[n]);
      hide Best;
      KeepAssociates(better, Best(better, a), Best(better, b[..n]), b[n]);
    }
  }

  lemma KeepAssociates<T(!new)>(better: (T, T) -> bool, a: Option<T>, b: Option<T>, x: T)
    requires Ranking(better)
    ensures Keep(better, Choose(better, a, b), x) == Choose(better, a, Keep(better, b, x))
  {
    if a.Some? && b.Some? {
      assert better(x, b.value) ==> better(x, a.value) || better(a.value, b.value);
      assert better(x, a.value) ==> better(x, b.value) || better(b.value, a.value);
      assert better(b.value, a.value) ==> better(b.value, x) || better(x, a.value);
    }
  }
}
