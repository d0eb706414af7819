/**
 * The `String.slice(from:to:)` extension of ViewController.swift, together with
 * the substring search of Foundation's `range(of:)` and `contains` that it and
 * the delegate handlers rely on. Strings are sequences of characters.
 */
module StringSlice {
  import opened Optional

  /** `pat` occurs in `s` starting at index `i`. */
  predicate OccursAt(s: string, pat: string, i: nat) {
    i + |pat| <= |s| && s[i..i + |pat|] == pat
  }

  /** `i` is the first index at or after `start` at which `pat` occurs in `s`. */
  predicate IsFirstFrom(s: string, pat: string, start: nat, i: nat) {
    start <= i && OccursAt(s, pat, i) &&
    forall k: nat :: start <= k < i ==> !OccursAt(s, pat, k)
  }

  /** `pat` occurs nowhere in `s` at or after index `start`. */
  ghost predicate AbsentFrom(s: string, pat: string, start: nat) {
    forall k: nat :: start <= k ==> !OccursAt(s, pat, k)
  }

  /**
   * Foundation's `range(of: pat, range: start..<endIndex)`, reduced to the
   * lower bound of the match: the first occurrence of `pat` lying entirely
   * inside `s[start..]`, or `None`.
   */
  function FindFrom(s: string, pat: string, start: nat): (r: Option<nat>)
    ensures r.Some? ==> IsFirstFrom(s, pat, start, r.value)
    ensures r.None? ==> AbsentFrom(s, pat, start)
    decreases |s| - start
  {
    if start + |pat| > |s| then None
    else if s[start..start + |pat|] == pat then Some(start)
    else FindFrom(s, pat, start + 1)
  }

  /** Foundation's `String.contains(_:)`: `pat` occurs somewhere in `s`. */
  predicate Contains(s: string, pat: string)
    ensures Contains(s, pat) <==> exists k: nat :: OccursAt(s, pat, k)
  {
    FindFrom(s, pat, 0).Some?
  }

  /**
   * `s` holds `from + mid + to` starting at `i`, and `to` does not start at
   * any index inside `mid`: the `to` that closes `mid` is the earliest one
   * after the `from`.
   */
  predicate Encloses(s: string, from: string, to: string, i: nat, mid: string) {
    OccursAt(s, from + mid + to, i) &&
    forall k: nat :: i + |from| <= k < i + |from| + |mid| ==> !OccursAt(s, to, k)
  }

  /**
   * `s.slice(from:to:)`: the text between the end of the first `from` and the
   * first `to` that begins at or after that end; `None` when either is
   * missing. Both call sites pass non-empty delimiters.
   */
  function Slice(s: string, from: string, to: string): (r: Option<string>)
    requires from != [] && to != []
  {
    match FindFrom(s, from, 0)
    case None => None
    case Some(i) =>
      var e := i + |from|;
      match FindFrom(s, to, e)
      case None => None
      case Some(j) => Some(s[e..j])
  }

  /**
   * What `Slice` returns: `None` when `from` is missing; otherwise, with `i`
   * the first `from`, `None` exactly when no `to` begins at or after the end
   * of that `from`, and else the text enclosed between them.
   */
  lemma SliceContract(s: string, from: string, to: string)
    requires from != [] && to != []
    ensures AbsentFrom(s, from, 0) ==> Slice(s, from, to).None?
    ensures forall i: nat :: IsFirstFrom(s, from, 0, i) ==>
              (Slice(s, from, to).None? <==> AbsentFrom(s, to, i + |from|)) &&
              (Slice(s, from, to).Some? ==> Encloses(s, from, to, i, Slice(s, from, to).value))
  {
    forall i: nat | IsFirstFrom(s, from, 0, i)
      ensures Slice(s, from, to).None? <==> AbsentFrom(s, to, i + |from|)
      ensures Slice(s, from, to).Some? ==> Encloses(s, from, to, i, Slice(s, from, to).value)
    {
      FirstIsFound(s, from, 0, i);
      var e := i + |from|;
      match FindFrom(s, to, e)
      case None =>
        assert Slice(s, from, to) == None;
      case Some(j) =>
        SliceOfFirsts(s, from, to, i, j);
        EnclosesAt(s, from, to, i, j);
    }
  }

  /** The pieces found by the two searches of `Slice` make up an enclosure. */
  lemma EnclosesAt(s: string, from: string, to: string, i: nat, j: nat)
    requires OccursAt(s, from, i)
    requires IsFirstFrom(s, to, i + |from|, j)
    ensures Encloses(s, from, to, i, s[i + |from|..j])
  {
    var e := i + |from|;
    var mid := s[e..j];
    assert s[i..j + |to|] == s[i..e] + s[e..j] + s[j..j + |to|];
  }

  /**
   * The converse of `Slice`'s contract: any `mid` enclosed by the first `from`
   * and a `to` is exactly what `Slice` returns, so the result is determined
   * by the two conditions alone.
   */
  lemma SliceDeterminedByEnclosure(s: string, from: string, to: string, i: nat, mid: string)
    requires from != [] && to != []
    requires IsFirstFrom(s, from, 0, i)
    requires Encloses(s, from, to, i, mid)
    ensures Slice(s, from, to) == Some(mid)
  {
    var e := i + |from|;
    var j := e + |mid|;
    EnclosedParts(s, from, mid, to, i);
    assert IsFirstFrom(s, to, e, j);
    SliceOfFirsts(s, from, to, i, j);
  }

  /** With the first `from` at `i` and the first `to` after it at `j`, `Slice` returns what lies between. */
  lemma SliceOfFirsts(s: string, from: string, to: string, i: nat, j: nat)
    requires from != [] && to != []
    requires IsFirstFrom(s, from, 0, i)
    requires IsFirstFrom(s, to, i + |from|, j)
    ensures Slice(s, from, to) == Some(s[i + |from|..j])
  {
    FirstIsFound(s, from, 0, i);
    FirstIsFound(s, to, i + |from|, j);
  }

  /** An occurrence of `from + mid + to` holds `mid` and then `to` after the `from`. */
  lemma EnclosedParts(s: string, from: string, mid: string, to: string, i: nat)
    requires OccursAt(s, from + mid + to, i)
    ensures s[i + |from|..i + |from| + |mid|] == mid
    ensures OccursAt(s, to, i + |from| + |mid|)
  {
    var w := from + mid + to;
    var e := i + |from|;
    var j := e + |mid|;
    forall t | 0 <= t < |mid|
      ensures s[e + t] == mid[t]
    {
      assert w[|from| + t] == mid[t];
      assert s[i..i + |w|][|from| + t] == s[e + t];
    }
    forall t | 0 <= t < |to|
      ensures s[j + t] == to[t]
    {
      assert w[|from| + |mid| + t] == to[t];
      assert s[i..i + |w|][|from| + |mid| + t] == s[j + t];
    }
    assert s[j..j + |to|] == to;
  }

  /** The search finds exactly the first occurrence, when there is one. */
  lemma FirstIsFound(s: string, pat: string, start: nat, i: nat)
    requires IsFirstFrom(s, pat, start, i)
    ensures FindFrom(s, pat, start) == Some(i)
  {
    var r := FindFrom(s, pat, start);
    if r.Some? {
      assert !(r.value < i) && !(i < r.value);
    }
  }

  /** A sliced result never contains the closing delimiter. */
  lemma SliceAvoidsClosing(s: string, from: string, to: string)
    requires from != [] && to != []
    requires Slice(s, from, to).Some?
    ensures !Contains(Slice(s, from, to).value, to)
  {
    var i := FindFrom(s, from, 0).value;
    var e := i + |from|;
    var j := FindFrom(s, to, e).value;
    var mid := s[e..j];
    assert Slice(s, from, to).value == mid;
    forall k: nat | OccursAt(mid, to, k)
      ensures false
    {
      OccursWithin(s, mid, to, e, k);
    }
  }

  /** An occurrence inside a piece of `s` is an occurrence in `s`. */
  lemma OccursWithin(s: string, piece: string, pat: string, e: nat, k: nat)
    requires e + |piece| <= |s| && s[e..e + |piece|] == piece
    requires OccursAt(piece, pat, k)
    ensures OccursAt(s, pat, e + k)
  {
    forall t | 0 <= t < |pat|
      ensures s[e + k + t] == pat[t]
    {
      assert piece[k + t] == pat[t];
      assert s[e..e + |piece|][k + t] == s[e + k + t];
    }
    assert s[e + k..e + k + |pat|] == pat;
  }
}
