/**
 * The emoji table built once at start-up: every base record of the dataset,
 * each followed by its skin-tone variations merged over it.
 */
module Dataset {
  import opened Wrappers

  /** A `skin_variations` entry: the fields it sets override the base's. */
  datatype Variation = Variation(unified: Option<string>, name: Option<string>, image: Option<string>)

  /** A record of the dataset, or of the flattened table. */
  datatype Emoji = Emoji(
    unified: string,
    name: string,
    image: string,
    skinVariations: Option<seq<Variation>>)

  /** `{ ...e, ...v }`: the variation's fields win, the base fills in the rest. */
  function Merge(e: Emoji, v: Variation): Emoji
  {
    Emoji(v.unified.GetOr(e.unified), v.name.GetOr(e.name), v.image.GetOr(e.image), e.skinVariations)
  }

  /** `Object.values(e.skin_variations)`, or nothing when the field is absent. */
  function VariationsOf(e: Emoji): seq<Variation>
  {
    if e.skinVariations.Some? then e.skinVariations.value else []
  }

  /** The merged records of one base, in its variations' order. */
  function Variants(e: Emoji): (r: seq<Emoji>)
    ensures |r| == |VariationsOf(e)|
    ensures forall j :: 0 <= j < |r| ==> r[j] == Merge(e, VariationsOf(e)[j])
  {
    seq(|VariationsOf(e)|, j requires 0 <= j < |VariationsOf(e)| => Merge(e, VariationsOf(e)[j]))
  }

  /** What one base contributes: itself, then its variants. */
  function Expand(e: Emoji): seq<Emoji>
  {
    [e] + Variants(e)
  }

  /** `f` applied to every element, the results concatenated in order. */
  function ConcatMap<A, B>(f: A -> seq<B>, xs: seq<A>): seq<B>
  {
    if xs == [] then [] else ConcatMap(f, xs[..|xs| - 1]) + f(xs[|xs| - 1])
  }

  lemma {:induction false} ConcatMapAppend<A, B>(f: A -> seq<B>, a: seq<A>, b: seq<A>)
    ensures ConcatMap(f, a + b) == ConcatMap(f, a) + ConcatMap(f, b)
    decreases |b|
  {
    if b == [] {
      assert a + b == a;
    } else {
      var b', last := b[..|b| - 1], b[|b| - 1];
      var fa, fb', x := ConcatMap(f, a), ConcatMap(f, b'), f(last);
      assert ConcatMap(f, a + b) == ConcatMap(f, a + b') + x by {
        var ab := a + b;
        assert ab[..|ab| - 1] == a + b' && ab[|ab| - 1] == last;
      }
      ConcatMapAppend(f, a, b');
      assert fa + fb' + x == fa + (fb' + x);
    }
  }

  /** The flattened table, as a function of the dataset. */
  function Flattened(ds: seq<Emoji>): seq<Emoji>
  {
    ConcatMap(Expand, ds)
  }

  /** The sum over bases of one plus the number of their variations. */
  function RecordCount(ds: seq<Emoji>): nat
  {
    if ds == [] then 0 else 1 + |VariationsOf(ds[0])| + RecordCount(ds[1..])
  }

  /**
   * The start-up loop: push every base, then every variation merged over
   * it, onto the table in order.
   */
  method Flatten(dataset: seq<Emoji>) returns (emoji: seq<Emoji>)
    ensures emoji == Flattened(dataset)
  {
    emoji := [];
    for i := 0 to |dataset|
      invariant emoji == Flattened(dataset[..i])
    {
      var e := dataset[i];
      assert dataset[..i + 1][..i] == dataset[..i];
      emoji := emoji + [e];
      if e.skinVariations.Some? {
        var vs := e.skinVariations.value;
        for j := 0 to |vs|
          invariant emoji == Flattened(dataset[..i]) + [e] + Variants(e)[..j]
        {
          assert Variants(e)[..j + 1] == Variants(e)[..j] + [Merge(e, vs[j])];
          emoji := emoji + [Merge(e, vs[j])];
        }
        assert Variants(e)[..|vs|] == Variants(e);
      } else {
        assert Variants(e) == [];
      }
    }
    assert dataset[..|dataset|] == dataset;
  }

  /** Flattening distributes over concatenation of datasets. */
  lemma FlattenedAppend(a: seq<Emoji>, b: seq<Emoji>)
    ensures Flattened(a + b) == Flattened(a) + Flattened(b)
  {
    ConcatMapAppend(Expand, a, b);
  }

  /** The table holds one record per base plus one per variation. */
  lemma {:induction false} FlattenedLength(ds: seq<Emoji>)
    ensures |Flattened(ds)| == RecordCount(ds)
    decreases |ds|
  {
    if ds != [] {
      assert ds == [ds[0]] + ds[1..];
      FlattenedAppend([ds[0]], ds[1..]);
      assert Flattened([ds[0]]) == Expand(ds[0]) by {
        var one := [ds[0]];
        assert one[..0] == [] && one[0] == ds[0];
        assert ConcatMap(Expand, one) == ConcatMap(Expand, []) + Expand(ds[0]);
      }
      FlattenedLength(ds[1..]);
    }
  }

  /** Where base `k` starts in the table. */
  function Offset(ds: seq<Emoji>, k: nat): nat
    requires k <= |ds|
  {
    |Flattened(ds[..k])|
  }

  /**
   * The table of a dataset is the table of the bases before `k`, then what
   * base `k` contributes, then the table of the bases after it.
   */
  lemma {:induction false} FlattenedSplit(ds: seq<Emoji>, k: nat)
    requires k < |ds|
    ensures Flattened(ds) == Flattened(ds[..k]) + Expand(ds[k]) + Flattened(ds[k + 1..])
  {
    var head := ds[..k + 1];
    assert ds == head + ds[k + 1..];
    FlattenedAppend(head, ds[k + 1..]);
    assert head[..k] == ds[..k] && head[k] == ds[k];
  }

  /**
   * Base `k` sits at its offset in the table, immediately followed by its own
   * variants in order, and base `k + 1` starts right after them.
   */
  lemma {:induction false} FlattenedLayout(ds: seq<Emoji>, k: nat)
    requires k < |ds|
    ensures Offset(ds, k + 1) == Offset(ds, k) + 1 + |VariationsOf(ds[k])|
    ensures Offset(ds, k) + 1 + |VariationsOf(ds[k])| <= |Flattened(ds)|
    ensures Flattened(ds)[Offset(ds, k)] == ds[k]
    ensures forall j :: 0 <= j < |VariationsOf(ds[k])| ==>
      Flattened(ds)[Offset(ds, k) + 1 + j] == Merge(ds[k], VariationsOf(ds[k])[j])
  {
    var t, p, vs := Flattened(ds), Flattened(ds[..k]), Variants(ds[k]);
    assert |p| + 1 + |vs| <= |t| && t[|p|] == ds[k] && forall j :: 0 <= j < |vs| ==> t[|p| + 1 + j] == vs[j] by {
      FlattenedSplit(ds, k);
      MiddleLayout(t, p, ds[k], vs, Flattened(ds[k + 1..]));
    }
    assert ds[..k + 1][..k] == ds[..k];
  }

  lemma MiddleLayout(t: seq<Emoji>, p: seq<Emoji>, e: Emoji, vs: seq<Emoji>, q: seq<Emoji>)
    requires t == p + ([e] + vs) + q
    ensures |p| + 1 + |vs| <= |t| && t[|p|] == e
    ensures forall j :: 0 <= j < |vs| ==> t[|p| + 1 + j] == vs[j]
  {
  }

  /** The record was contributed by base `b`: it is `b` or `b` merged with one of its variations. */
  predicate ComesFrom(b: Emoji, x: Emoji)
  {
    x == b || exists j :: 0 <= j < |VariationsOf(b)| && x == Merge(b, VariationsOf(b)[j])
  }

  /** Every record of the table is a base or a base merged with one of its variations. */
  lemma {:induction false} FlattenedOrigin(ds: seq<Emoji>, i: nat)
    requires i < |Flattened(ds)|
    ensures exists k :: 0 <= k < |ds| && ComesFrom(ds[k], Flattened(ds)[i])
    decreases |ds|
  {
    var n := |ds|;
    var init := ds[..n - 1];
    var p := Flattened(init);
    if i < |p| {
      FlattenedOrigin(init, i);
      var k :| 0 <= k < |init| && ComesFrom(init[k], p[i]);
      assert ds[k] == init[k];
    } else {
      var x := Flattened(ds)[i];
      assert x == Expand(ds[n - 1])[i - |p|];
      if i > |p| {
        assert x == Merge(ds[n - 1], VariationsOf(ds[n - 1])[i - |p| - 1]);
      }
      assert ComesFrom(ds[n - 1], x);
    }
  }

  /** A variation with no fields changes nothing. */
  lemma MergeEmpty(e: Emoji)
    ensures Merge(e, Variation(None, None, None)) == e
  {
  }

  /** A variation that sets every field decides every field but `skinVariations`. */
  lemma MergeFull(e: Emoji, u: string, n: string, img: string)
    ensures Merge(e, Variation(Some(u), Some(n), Some(img))) == Emoji(u, n, img, e.skinVariations)
  {
  }

  /** Merging the same variation twice is merging it once. */
  lemma MergeIdempotent(e: Emoji, v: Variation)
    ensures Merge(Merge(e, v), v) == Merge(e, v)
  {
  }
}
