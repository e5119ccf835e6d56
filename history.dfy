/** The clipboard history of pyperclyp as values: the deduplicating append that
    one successful poll performs, the history that a whole run of observed
    clipboard values produces, and the properties that the order of first
    observation gives it. */
module History {

  /** No two entries of `h` are equal. */
  predicate NoDuplicates(h: seq<string>)
  {
    forall i, j :: 0 <= i < j < |h| ==> h[i] != h[j]
  }

  /** One successful poll: `v` is appended when no entry is exactly equal to it. */
  function Observe(h: seq<string>, v: string): (r: seq<string>)
    ensures v in r
    ensures h <= r
    ensures v in h ==> r == h
    ensures v !in h ==> |r| == |h| + 1 && r[|h|] == v
    ensures forall w :: w in r <==> w in h || w == v
    ensures NoDuplicates(h) ==> NoDuplicates(r)
  {
    if v in h then h else h + [v]
  }

  /** Observing the same value a second time changes nothing. */
  lemma ObserveIdempotent(h: seq<string>, v: string)
    ensures Observe(Observe(h, v), v) == Observe(h, v)
  {
  }

  /** The history built by polling an empty history with `obs`, in order. */
  function Distinct(obs: seq<string>): seq<string>
  {
    if obs == [] then [] else Observe(Distinct(obs[..|obs| - 1]), obs[|obs| - 1])
  }

  /** Polling one more value extends the history by `Observe`. */
  lemma DistinctSnoc(obs: seq<string>, v: string)
    ensures Distinct(obs + [v]) == Observe(Distinct(obs), v)
  {
    assert (obs + [v])[..|obs|] == obs;
  }

  /** The position of the first occurrence of `v` in `s`. */
  function FirstIndex(s: seq<string>, v: string): (i: nat)
    requires v in s
    ensures i < |s| && s[i] == v
    ensures v !in s[..i]
  {
    if s[0] == v then 0 else 1 + FirstIndex(s[1..], v)
  }

  /** `FirstIndex` is the only position holding `v` with no `v` before it. */
  lemma {:induction false} FirstIndexUnique(s: seq<string>, v: string, i: nat)
    requires i < |s| && s[i] == v && v !in s[..i]
    ensures FirstIndex(s, v) == i
  {
    if i > 0 {
      assert s[..i][0] == s[0];
      assert s[1..][..i - 1] == s[..i][1..];
      FirstIndexUnique(s[1..], v, i - 1);
    }
  }

  /** The first occurrence of an earlier value does not move when a value is appended. */
  lemma FirstIndexSnoc(s: seq<string>, w: string, v: string)
    requires v in s
    ensures FirstIndex(s + [w], v) == FirstIndex(s, v)
  {
    var j := FirstIndex(s, v);
    assert (s + [w])[..j] == s[..j];
    FirstIndexUnique(s + [w], v, j);
  }

  /** A value absent from `s` first occurs at the position where it is appended. */
  lemma FirstIndexNew(s: seq<string>, v: string)
    requires v !in s
    ensures FirstIndex(s + [v], v) == |s|
  {
    assert (s + [v])[..|s|] == s;
    FirstIndexUnique(s + [v], v, |s|);
  }

  /** `h` lists every value of `obs` exactly once, ordered by first occurrence in `obs`. */
  ghost predicate FirstOccurrenceOrder(obs: seq<string>, h: seq<string>)
  {
    && NoDuplicates(h)
    && (forall v :: v in h <==> v in obs)
    && (forall i, j :: 0 <= i < j < |h| ==> FirstIndex(obs, h[i]) < FirstIndex(obs, h[j]))
  }

  /** The history produced by any run of polls is the run's distinct values in
      order of first observation. */
  lemma {:induction false} DistinctIsFirstOccurrenceOrder(obs: seq<string>)
    ensures FirstOccurrenceOrder(obs, Distinct(obs))
  {
    if obs != [] {
      var pre, v := obs[..|obs| - 1], obs[|obs| - 1];
      assert obs == pre + [v];
      DistinctIsFirstOccurrenceOrder(pre);
      var h := Distinct(pre);
      assert Distinct(obs) == Observe(h, v);
      forall w | w in h
        ensures FirstIndex(obs, w) == FirstIndex(pre, w)
      {
        FirstIndexSnoc(pre, v, w);
      }
      if v !in pre {
        FirstIndexNew(pre, v);
        var r := h + [v];
        forall i, j | 0 <= i < j < |r|
          ensures FirstIndex(obs, r[i]) < FirstIndex(obs, r[j])
        {
          assert r[i] in h;
          if j < |h| {
            assert r[j] in h;
          }
        }
      }
    }
  }

  /** The history of a run is exactly the sequence that lists the run's values
      once each in order of first observation: there is no other. */
  lemma DistinctCharacterized(obs: seq<string>, h: seq<string>)
    ensures h == Distinct(obs) <==> FirstOccurrenceOrder(obs, h)
  {
    DistinctIsFirstOccurrenceOrder(obs);
    if FirstOccurrenceOrder(obs, h) {
      SameOrderedEqual(obs, h, Distinct(obs));
    }
  }

  /** Later polls only append: the history of a run is a prefix of the history
      of any longer run, so no entry is removed or moved. */
  lemma {:induction false} DistinctGrowsByAppend(obs: seq<string>, more: seq<string>)
    ensures Distinct(obs) <= Distinct(obs + more)
    decreases |more|
  {
    if more != [] {
      var init := more[..|more| - 1];
      assert obs + more == (obs + init) + [more[|more| - 1]];
      DistinctGrowsByAppend(obs, init);
      DistinctSnoc(obs + init, more[|more| - 1]);
    } else {
      assert obs + more == obs;
    }
  }

  /** `h` holds values of `obs` without repetition, ordered by first occurrence in `obs`. */
  ghost predicate OrderedByFirstIndex(obs: seq<string>, h: seq<string>)
  {
    && NoDuplicates(h)
    && (forall v :: v in h ==> v in obs)
    && (forall i, j :: 0 <= i < j < |h| ==> FirstIndex(obs, h[i]) < FirstIndex(obs, h[j]))
  }

  /** Two sequences holding the same values, both ordered by first occurrence, are equal. */
  lemma {:induction false} SameOrderedEqual(obs: seq<string>, a: seq<string>, b: seq<string>)
    requires OrderedByFirstIndex(obs, a) && OrderedByFirstIndex(obs, b)
    requires forall v :: v in a <==> v in b
    ensures a == b
    decreases |a|
  {
    NoValuesIffEmpty(a);
    NoValuesIffEmpty(b);
    if a != [] && b != [] {
      LeastFirst(obs, a, b[0]);
      LeastFirst(obs, b, a[0]);
      DropFirst(obs, a);
      DropFirst(obs, b);
      SameOrderedEqual(obs, a[1..], b[1..]);
    }
  }

  /** A sequence is empty exactly when no value is in it. */
  lemma NoValuesIffEmpty(s: seq<string>)
    ensures s == [] <==> forall v :: v !in s
  {
    if s != [] {
      assert s[0] in s;
    }
  }

  /** The first entry of an ordered sequence occurs in `obs` no later than any other entry. */
  lemma LeastFirst(obs: seq<string>, a: seq<string>, v: string)
    requires OrderedByFirstIndex(obs, a) && v in a
    ensures FirstIndex(obs, a[0]) <= FirstIndex(obs, v)
  {
    var p :| 0 <= p < |a| && a[p] == v;
    if p > 0 {
      assert FirstIndex(obs, a[0]) < FirstIndex(obs, a[p]);
    }
  }

  /** Dropping the first entry keeps the order and removes exactly that value. */
  lemma DropFirst(obs: seq<string>, a: seq<string>)
    requires OrderedByFirstIndex(obs, a) && a != []
    ensures OrderedByFirstIndex(obs, a[1..])
    ensures forall v :: v in a[1..] <==> v in a && v != a[0]
  {
    forall v | v in a && v != a[0]
      ensures v in a[1..]
    {
      var p :| 0 <= p < |a| && a[p] == v;
      assert a[1..][p - 1] == v;
    }
    forall i, j | 0 <= i < j < |a[1..]|
      ensures FirstIndex(obs, a[1..][i]) < FirstIndex(obs, a[1..][j])
    {
      assert a[1..][i] == a[i + 1] && a[1..][j] == a[j + 1];
    }
  }
}
