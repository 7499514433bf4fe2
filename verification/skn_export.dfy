/**
 * The computations `exportSKN` performs on the mesh before writing it:
 * bone-weight renormalisation, vertex deduplication with per-material
 * ranges, the bounding-sphere approximation, the header it writes and the
 * trailer. Scene access is replaced by plain sequences; weights,
 * coordinates and UVs are real numbers.
 */
module SknExport {
  import opened Wrappers
  import opened Errors
  import opened Bytes
  import opened Skn
  import opened Lists

  // -----------------------------------------------------------------------
  // Bone weights

  /** One (vertex group, weight) pair of a vertex. */
  datatype Influence = Influence(group: int, weight: real)

  /** The four bone slots of an exported vertex. */
  datatype BoneWeights = BoneWeights(groups: seq<int>, weights: seq<real>)

  function Total(ws: seq<Influence>): real {
    if ws == [] then 0.0 else ws[0].weight + Total(ws[1..])
  }

  function Sum(xs: seq<real>): real {
    if xs == [] then 0.0 else xs[0] + Sum(xs[1..])
  }

  predicate Descending(ws: seq<Influence>) {
    forall i, j :: 0 <= i < j < |ws| ==> ws[i].weight >= ws[j].weight
  }

  /** The influences whose weight is exactly `w`, in order. */
  function WithWeight(ws: seq<Influence>, w: real): seq<Influence> {
    if ws == [] then []
    else (if ws[0].weight == w then [ws[0]] else []) + WithWeight(ws[1..], w)
  }

  /** Inserts `x` behind every element at least as heavy. */
  function InsertDesc(x: Influence, ys: seq<Influence>): (r: seq<Influence>)
    ensures |r| == |ys| + 1
  {
    if ys == [] then [x]
    else if ys[0].weight >= x.weight then [ys[0]] + InsertDesc(x, ys[1..])
    else [x] + ys
  }

  /**
   * `sorted(ws, key=weight, reverse=True)`: an insertion sort that takes the
   * elements in input order, so equal weights keep their input order.
   */
  function SortDesc(ws: seq<Influence>): (r: seq<Influence>)
    ensures |r| == |ws|
  {
    if ws == [] then [] else InsertDesc(ws[|ws| - 1], SortDesc(ws[..|ws| - 1]))
  }

  lemma {:induction false} InsertDescBounded(x: Influence, ys: seq<Influence>, b: real)
    requires x.weight <= b
    requires forall k :: 0 <= k < |ys| ==> ys[k].weight <= b
    ensures forall k :: 0 <= k < |ys| + 1 ==> InsertDesc(x, ys)[k].weight <= b
  {
    if ys != [] && ys[0].weight >= x.weight {
      InsertDescBounded(x, ys[1..], b);
      var r := InsertDesc(x, ys);
      assert r == [ys[0]] + InsertDesc(x, ys[1..]);
      forall k | 1 <= k < |ys| + 1 ensures r[k].weight <= b {
        assert r[k] == InsertDesc(x, ys[1..])[k - 1];
      }
    }
  }

  lemma {:induction false} InsertDescSorted(x: Influence, ys: seq<Influence>)
    requires Descending(ys)
    ensures Descending(InsertDesc(x, ys))
  {
    if ys != [] && ys[0].weight >= x.weight {
      InsertDescSorted(x, ys[1..]);
      InsertDescBounded(x, ys[1..], ys[0].weight);
      var tail := InsertDesc(x, ys[1..]);
      var r := InsertDesc(x, ys);
      assert r == [ys[0]] + tail;
      forall i, j | 0 <= i < j < |r| ensures r[i].weight >= r[j].weight {
        assert r[j] == tail[j - 1];
        if i > 0 {
          assert r[i] == tail[i - 1];
        }
      }
    }
  }

  lemma {:induction false} InsertDescPermutes(x: Influence, ys: seq<Influence>)
    ensures multiset(InsertDesc(x, ys)) == multiset(ys) + multiset{x}
  {
    if ys != [] && ys[0].weight >= x.weight {
      InsertDescPermutes(x, ys[1..]);
      assert ys == [ys[0]] + ys[1..];
    }
  }

  lemma {:induction false} WithWeightAppend(a: seq<Influence>, b: seq<Influence>, w: real)
    ensures WithWeight(a + b, w) == WithWeight(a, w) + WithWeight(b, w)
  {
    if a == [] {
      assert a + b == b;
    } else {
      var head := if a[0].weight == w then [a[0]] else [];
      assert (a + b)[0] == a[0];
      assert (a + b)[1..] == a[1..] + b;
      assert WithWeight(a + b, w) == head + WithWeight(a[1..] + b, w);
      WithWeightAppend(a[1..], b, w);
      assert head + (WithWeight(a[1..], w) + WithWeight(b, w))
          == (head + WithWeight(a[1..], w)) + WithWeight(b, w);
    }
  }

  lemma {:induction false} WithWeightLighter(ys: seq<Influence>, w: real)
    requires Descending(ys)
    requires ys != [] ==> ys[0].weight < w
    ensures WithWeight(ys, w) == []
  {
    if ys != [] {
      WithWeightLighter(ys[1..], w);
    }
  }

  lemma {:induction false} InsertDescStable(x: Influence, ys: seq<Influence>, w: real)
    requires Descending(ys)
    ensures WithWeight(InsertDesc(x, ys), w)
            == WithWeight(ys, w) + (if x.weight == w then [x] else [])
  {
    var own := if x.weight == w then [x] else [];
    if ys == [] {
      assert WithWeight([x], w) == own + WithWeight([], w);
    } else if ys[0].weight >= x.weight {
      var head := if ys[0].weight == w then [ys[0]] else [];
      var tail := InsertDesc(x, ys[1..]);
      InsertDescStable(x, ys[1..], w);
      assert InsertDesc(x, ys) == [ys[0]] + tail;
      assert ([ys[0]] + tail)[1..] == tail;
      calc {
        WithWeight(InsertDesc(x, ys), w);
        head + WithWeight(tail, w);
        head + (WithWeight(ys[1..], w) + own);
        (head + WithWeight(ys[1..], w)) + own;
        WithWeight(ys, w) + own;
      }
    } else {
      assert InsertDesc(x, ys) == [x] + ys;
      assert ([x] + ys)[1..] == ys;
      if x.weight == w {
        WithWeightLighter(ys, w);
      }
    }
  }

  /**
   * The sort is descending, a permutation, and stable: for every weight,
   * the influences carrying it appear in their input order.
   */
  lemma {:induction false} SortDescCorrect(ws: seq<Influence>)
    ensures Descending(SortDesc(ws))
    ensures multiset(SortDesc(ws)) == multiset(ws)
    ensures forall w :: WithWeight(SortDesc(ws), w) == WithWeight(ws, w)
  {
    if ws != [] {
      var init, x := ws[..|ws| - 1], ws[|ws| - 1];
      SortDescCorrect(init);
      InsertDescSorted(x, SortDesc(init));
      InsertDescPermutes(x, SortDesc(init));
      assert ws == init + [x];
      forall w ensures WithWeight(SortDesc(ws), w) == WithWeight(ws, w) {
        InsertDescStable(x, SortDesc(init), w);
        WithWeightAppend(init, [x], w);
      }
    }
  }

  /** The bone slots: the kept influences' groups, then the reset zeros. */
  function Groups(ks: seq<Influence>): (g: seq<int>)
    requires |ks| <= 4
    ensures |g| == 4
  {
    seq(4, i requires 0 <= i < 4 => if i < |ks| then ks[i].group else 0)
  }

  /** Each kept weight divided by `s`, then zeros. */
  function Divided(ks: seq<Influence>, s: real): (ws: seq<real>)
    requires |ks| <= 4 && s != 0.0
    ensures |ws| == 4
  {
    seq(4, i requires 0 <= i < 4 => if i < |ks| then ks[i].weight / s else 0.0)
  }

  /** Each kept weight spread as `w + w * (1 - s) / s`, then zeros. */
  function Spread(ks: seq<Influence>, s: real): (ws: seq<real>)
    requires |ks| <= 4 && s != 0.0
    ensures |ws| == 4
  {
    seq(4, i requires 0 <= i < 4 =>
      if i < |ks| then ks[i].weight + ks[i].weight * (1.0 - s) / s else 0.0)
  }

  const ResetWeights := BoneWeights([0, 0, 0, 0], [0.0, 0.0, 0.0, 0.0])

  /**
   * The weights an exported vertex receives. Up to four influences are each
   * divided by their total; with more, the four heaviest are kept and
   * spread. A zero divisor raises; no influences leave the reset zeros.
   */
  function Renormalize(ws: seq<Influence>): (r: Result<BoneWeights, Error>)
    ensures r.Ok? ==> |r.value.groups| == 4 && |r.value.weights| == 4
  {
    if |ws| > 4 then
      var top := SortDesc(ws)[..4];
      var s := Total(top);
      if s == 0.0 then Err(ZeroWeightSum)
      else Ok(BoneWeights(Groups(top), Spread(top, s)))
    else if ws == [] then
      Ok(ResetWeights)
    else
      var s := Total(ws);
      if s == 0.0 then Err(ZeroWeightSum)
      else Ok(BoneWeights(Groups(ws), Divided(ws, s)))
  }

  /** The influences `Renormalize` keeps. */
  function Kept(ws: seq<Influence>): (k: seq<Influence>)
    ensures |k| <= 4
  {
    if |ws| > 4 then SortDesc(ws)[..4] else ws
  }

  lemma SpreadIsDivision(w: real, s: real)
    requires s != 0.0
    ensures w + w * (1.0 - s) / s == w / s
  {
    assert w * (1.0 - s) / s == w / s - w;
  }

  lemma Sum4(xs: seq<real>)
    requires |xs| == 4
    ensures Sum(xs) == xs[0] + xs[1] + xs[2] + xs[3]
  {
    var t1 := xs[1..];
    var t2 := t1[1..];
    var t3 := t2[1..];
    assert t3[1..] == [];
    assert t1[0] == xs[1] && t2[0] == xs[2] && t3[0] == xs[3];
  }

  lemma TotalSmall(ks: seq<Influence>)
    requires |ks| <= 4
    ensures Total(ks) == (if |ks| > 0 then ks[0].weight else 0.0) + (if |ks| > 1 then ks[1].weight else 0.0)
                         + (if |ks| > 2 then ks[2].weight else 0.0) + (if |ks| > 3 then ks[3].weight else 0.0)
  {
    if ks != [] {
      var t1 := ks[1..];
      TotalSmall(t1);
      assert |t1| > 0 ==> t1[0] == ks[1];
      assert |t1| > 1 ==> t1[1] == ks[2];
      assert |t1| > 2 ==> t1[2] == ks[3];
    }
  }

  lemma DividedSum(ks: seq<Influence>, s: real)
    requires |ks| <= 4 && s != 0.0
    ensures Sum(Divided(ks, s)) == Total(ks) / s
  {
    var ws := Divided(ks, s);
    Sum4(ws);
    TotalSmall(ks);
    var a := if |ks| > 0 then ks[0].weight else 0.0;
    var b := if |ks| > 1 then ks[1].weight else 0.0;
    var c := if |ks| > 2 then ks[2].weight else 0.0;
    var d := if |ks| > 3 then ks[3].weight else 0.0;
    assert ws[0] == a / s && ws[1] == b / s && ws[2] == c / s && ws[3] == d / s;
    DivAdd(a, b, s);
    DivAdd(a + b, c, s);
    DivAdd(a + b + c, d, s);
  }

  lemma DivAdd(a: real, b: real, s: real)
    requires s != 0.0
    ensures a / s + b / s == (a + b) / s
  {
  }

  /**
   * What the exported weights are: the kept influences' groups and their
   * weights divided by the kept total, then zeros. They fail only on a zero
   * total, and otherwise sum to 1.
   */
  lemma RenormalizeCorrect(ws: seq<Influence>)
    ensures Renormalize(ws).Err? <==> ws != [] && Total(Kept(ws)) == 0.0
    ensures Renormalize(ws).Ok? && ws != [] ==>
              Renormalize(ws).value == BoneWeights(Groups(Kept(ws)), Divided(Kept(ws), Total(Kept(ws))))
    ensures Renormalize(ws).Ok? && ws != [] ==> Sum(Renormalize(ws).value.weights) == 1.0
    ensures ws == [] ==> Renormalize(ws) == Ok(ResetWeights)
  {
    var ks := Kept(ws);
    var s := Total(ks);
    if ws != [] && s != 0.0 {
      RenormalizeKept(ws);
      DividedSum(ks, s);
      assert Total(ks) / s == 1.0;
    }
  }

  /** The spread weights of more than four influences are the divided ones. */
  lemma RenormalizeKept(ws: seq<Influence>)
    requires ws != [] && Total(Kept(ws)) != 0.0
    ensures Renormalize(ws).Ok?
    ensures Renormalize(ws).value.groups == Groups(Kept(ws))
    ensures Renormalize(ws).value.weights == Divided(Kept(ws), Total(Kept(ws)))
  {
    var ks := Kept(ws);
    var s := Total(ks);
    if |ws| > 4 {
      forall i | 0 <= i < |ks| ensures Spread(ks, s)[i] == Divided(ks, s)[i] {
        SpreadIsDivision(ks[i].weight, s);
      }
      assert Spread(ks, s) == Divided(ks, s);
    }
  }

  /** With more than four influences, every kept weight is at least every dropped one. */
  lemma KeptAreHeaviest(ws: seq<Influence>)
    requires |ws| > 4
    ensures multiset(Kept(ws)) <= multiset(ws)
    ensures forall i, j :: 0 <= i < 4 <= j < |ws| ==> SortDesc(ws)[i].weight >= SortDesc(ws)[j].weight
  {
    SortDescCorrect(ws);
    var sorted := SortDesc(ws);
    assert sorted == sorted[..4] + sorted[4..];
    assert multiset(sorted) == multiset(sorted[..4]) + multiset(sorted[4..]);
  }

  // -----------------------------------------------------------------------
  // Vertex deduplication

  /**
   * One corner of a face: the key `(uv, position)` that decides whether a
   * new vertex is written, and the per-vertex data that goes with it.
   */
  datatype Loop<K, V> = Loop(key: K, data: V)

  /** A material slot: its (encoded) name and the faces assigned to it. */
  datatype Slot<K, V> = Slot(name: seq<byte>, faces: seq<seq<Loop<K, V>>>)

  /**
   * The running lists of the export loop: the distinct keys in order of
   * first use (`vertexUvs`), the vertices, the key-to-index dictionary and
   * the index buffer.
   */
  datatype Dedup<K(==), V> = Dedup(keys: seq<K>, vertices: seq<V>, lookup: map<K, nat>, indices: seq<nat>)

  function EmptyDedup<K(==), V>(): Dedup<K, V> {
    Dedup([], [], map[], [])
  }

  /** The dictionary indexes exactly the key list, and every index names a vertex. */
  ghost predicate Consistent<K, V>(st: Dedup<K, V>) {
    && |st.keys| == |st.vertices|
    && (forall k :: k in st.lookup ==> st.lookup[k] < |st.keys| && st.keys[st.lookup[k]] == k)
    && (forall i :: 0 <= i < |st.keys| ==> st.keys[i] in st.lookup)
    && (forall j :: 0 <= j < |st.indices| ==> st.indices[j] < |st.keys|)
  }

  /**
   * One loop: reuse the vertex with the same key, or append a new one.
   * Exactly one index is appended, the one the dictionary then holds for
   * the loop's key.
   */
  function AddLoop<K(==), V>(st: Dedup<K, V>, l: Loop<K, V>): (r: Dedup<K, V>)
    ensures |r.indices| == |st.indices| + 1
    ensures l.key in r.lookup && r.indices[|st.indices|] == r.lookup[l.key]
  {
    if l.key in st.lookup then st.(indices := st.indices + [st.lookup[l.key]])
    else Dedup(st.keys + [l.key], st.vertices + [l.data],
               st.lookup[l.key := |st.keys|], st.indices + [|st.keys|])
  }

  /** The loops in order over one shared dictionary: one index per loop. */
  function AddLoops<K(==), V>(st: Dedup<K, V>, ls: seq<Loop<K, V>>): (r: Dedup<K, V>)
    ensures |r.indices| == |st.indices| + |ls|
  {
    if ls == [] then st else AddLoop(AddLoops(st, ls[..|ls| - 1]), ls[|ls| - 1])
  }

  function Keys<K, V>(ls: seq<Loop<K, V>>): (ks: seq<K>)
    ensures |ks| == |ls|
  {
    seq(|ls|, i requires 0 <= i < |ls| => ls[i].key)
  }

  /** One loop keeps the state consistent. */
  lemma AddLoopConsistent<K, V>(st: Dedup<K, V>, l: Loop<K, V>)
    requires Consistent(st)
    ensures Consistent(AddLoop(st, l))
    ensures l.key in st.lookup <==> l.key in st.keys
    ensures AddLoop(st, l).keys == (if l.key in st.keys then st.keys else st.keys + [l.key])
  {
    if l.key in st.keys {
      var i :| 0 <= i < |st.keys| && st.keys[i] == l.key;
      assert l.key in st.lookup;
    }
  }

  lemma {:induction false} AddLoopsConsistent<K, V>(ls: seq<Loop<K, V>>)
    ensures Consistent(AddLoops(EmptyDedup(), ls))
    ensures AddLoops(EmptyDedup(), ls).keys == Nub(Keys(ls))
    ensures |AddLoops(EmptyDedup(), ls).indices| == |ls|
  {
    if ls != [] {
      var n := |ls| - 1;
      var init, l := ls[..n], ls[n];
      AddLoopsConsistent(init);
      var st := AddLoops(EmptyDedup(), init);
      assert AddLoops(EmptyDedup(), ls) == AddLoop(st, l);
      AddLoopConsistent(st, l);
      assert Keys(ls) == Keys(init) + [l.key];
      NubSnoc(Keys(init), l.key);
    }
  }

  /** What the dictionary built from `init` says about the key of the next loop. */
  lemma AddLoopsLookup<K, V>(init: seq<Loop<K, V>>, l: Loop<K, V>)
    ensures var st := AddLoops(EmptyDedup(), init);
      && (l.key in st.lookup <==> l.key in st.keys)
      && (l.key in st.lookup ==> st.lookup[l.key] < |st.keys| && st.keys[st.lookup[l.key]] == l.key)
      && (l.key in st.keys <==> l.key in Keys(init))
  {
    var st := AddLoops(EmptyDedup(), init);
    AddLoopsConsistent(init);
    AddLoopConsistent(st, l);
    NubCorrect(Keys(init));
  }

  /** What one loop does to the lists, given what consistency says about its key. */
  lemma AddLoopShape<K, V>(st: Dedup<K, V>, l: Loop<K, V>)
    requires |st.keys| == |st.vertices|
    requires l.key in st.lookup <==> l.key in st.keys
    requires l.key in st.lookup ==> st.lookup[l.key] < |st.keys| && st.keys[st.lookup[l.key]] == l.key
    ensures var r := AddLoop(st, l);
      && |r.indices| == |st.indices| + 1
      && (forall j :: 0 <= j < |st.indices| ==> r.indices[j] == st.indices[j])
      && (forall i :: 0 <= i < |st.keys| ==> r.keys[i] == st.keys[i] && r.vertices[i] == st.vertices[i])
      && r.keys[r.indices[|st.indices|]] == l.key
      && (l.key !in st.keys ==> r.vertices[r.indices[|st.indices|]] == l.data)
  {
  }

  /**
   * Deduplicating a loop sequence from scratch: the key list is the
   * distinct keys in order of first use, every index points at a vertex
   * with the loop's own key, and a key's first loop supplies its vertex.
   */
  lemma {:induction false} AddLoopsCorrect<K, V>(ls: seq<Loop<K, V>>)
    ensures |AddLoops(EmptyDedup(), ls).indices| == |ls|
    ensures |AddLoops(EmptyDedup(), ls).keys| == |AddLoops(EmptyDedup(), ls).vertices|
    ensures forall j :: 0 <= j < |ls| ==>
              AddLoops(EmptyDedup(), ls).indices[j] < |AddLoops(EmptyDedup(), ls).keys|
    ensures forall j :: 0 <= j < |ls| ==>
              AddLoops(EmptyDedup(), ls).keys[AddLoops(EmptyDedup(), ls).indices[j]] == ls[j].key
    ensures forall j :: 0 <= j < |ls| && ls[j].key !in Keys(ls[..j]) ==>
              AddLoops(EmptyDedup(), ls).vertices[AddLoops(EmptyDedup(), ls).indices[j]] == ls[j].data
  {
    if ls != [] {
      var n := |ls| - 1;
      var init, l := ls[..n], ls[n];
      AddLoopsCorrect(init);
      var st := AddLoops(EmptyDedup(), init);
      var r := AddLoop(st, l);
      assert AddLoops(EmptyDedup(), ls) == r;
      AddLoopsLookup(init, l);
      assert ls == init + [l];
      AddLoopsCorrectStep(st, init, l);
    }
  }

  /** The inductive step of `AddLoopsCorrect`: one more loop `l` after `init`. */
  lemma AddLoopsCorrectStep<K, V>(st: Dedup<K, V>, init: seq<Loop<K, V>>, l: Loop<K, V>)
    requires |st.indices| == |init| && |st.keys| == |st.vertices|
    requires forall j :: 0 <= j < |init| ==> st.indices[j] < |st.keys|
    requires forall j :: 0 <= j < |init| ==> st.keys[st.indices[j]] == init[j].key
    requires forall j :: 0 <= j < |init| && init[j].key !in Keys(init[..j]) ==>
               st.vertices[st.indices[j]] == init[j].data
    requires l.key in st.lookup <==> l.key in st.keys
    requires l.key in st.lookup ==> st.lookup[l.key] < |st.keys| && st.keys[st.lookup[l.key]] == l.key
    requires l.key in st.keys <==> l.key in Keys(init)
    ensures var r, ls := AddLoop(st, l), init + [l];
      && |r.indices| == |ls| && |r.keys| == |r.vertices|
      && (forall j :: 0 <= j < |ls| ==> r.indices[j] < |r.keys|)
      && (forall j :: 0 <= j < |ls| ==> r.keys[r.indices[j]] == ls[j].key)
      && (forall j :: 0 <= j < |ls| && ls[j].key !in Keys(ls[..j]) ==> r.vertices[r.indices[j]] == ls[j].data)
  {
    var r, ls, n := AddLoop(st, l), init + [l], |init|;
    AddLoopShape(st, l);
    forall j | 0 <= j < |ls| ensures r.keys[r.indices[j]] == ls[j].key {
      if j < n {
        var i := st.indices[j];
        assert i < |st.keys| && r.indices[j] == i && r.keys[i] == st.keys[i];
        assert ls[j] == init[j];
      }
    }
    forall j | 0 <= j < |ls| && ls[j].key !in Keys(ls[..j])
      ensures r.vertices[r.indices[j]] == ls[j].data
    {
      if j < n {
        var i := st.indices[j];
        assert i < |st.keys| && r.indices[j] == i && r.vertices[i] == st.vertices[i];
        assert ls[j] == init[j];
        assert ls[..j] == init[..j];
      } else {
        assert ls[..j] == init;
      }
    }
  }

  lemma {:induction false} AddLoopsAppend<K, V>(st: Dedup<K, V>, a: seq<Loop<K, V>>, b: seq<Loop<K, V>>)
    ensures AddLoops(st, a + b) == AddLoops(AddLoops(st, a), b)
    decreases |b|
  {
    if b == [] {
      assert a + b == a;
    } else {
      var n := |b| - 1;
      assert (a + b)[..|a + b| - 1] == a + b[..n];
      assert (a + b)[|a + b| - 1] == b[n];
      AddLoopsAppend(st, a, b[..n]);
    }
  }

  /** The loops of the faces, face by face. */
  function FaceLoops<K, V>(faces: seq<seq<Loop<K, V>>>): seq<Loop<K, V>> {
    if faces == [] then [] else FaceLoops(faces[..|faces| - 1]) + faces[|faces| - 1]
  }

  /** The loops of every slot's faces, slot by slot. */
  function SlotLoops<K, V>(slots: seq<Slot<K, V>>): seq<Loop<K, V>> {
    if slots == [] then [] else SlotLoops(slots[..|slots| - 1]) + FaceLoops(slots[|slots| - 1].faces)
  }

  predicate Triangles<K, V>(faces: seq<seq<Loop<K, V>>>) {
    forall f :: 0 <= f < |faces| ==> |faces[f]| == 3
  }

  /** The corner count of the first face that is not a triangle. */
  function FirstNonTriangle<K, V>(faces: seq<seq<Loop<K, V>>>): (r: Option<nat>)
    ensures r.None? <==> Triangles(faces)
    ensures r.Some? ==> r.value != 3
  {
    if faces == [] then None
    else if |faces[0]| != 3 then Some(|faces[0]|)
    else
      var r := FirstNonTriangle(faces[1..]);
      assert r.None? ==> forall f :: 1 <= f < |faces| ==> |faces[f]| == 3 by {
        if r.None? {
          forall f | 1 <= f < |faces| ensures |faces[f]| == 3 {
            assert faces[f] == faces[1..][f - 1];
          }
        }
      }
      r
  }

  datatype Exported<K(==), V> = Exported(state: Dedup<K, V>, materials: seq<Material>)

  /**
   * The material loop of `exportSKN`: each slot's faces are walked in order
   * with one shared dictionary; a slot's range starts at the list lengths
   * before it and counts what it added. A face that is not a triangle
   * raises.
   */
  function ExportSlots<K(==), V>(slots: seq<Slot<K, V>>): (r: Result<Exported<K, V>, Error>)
    ensures r.Ok? ==> |r.value.materials| == |slots|
  {
    if slots == [] then Ok(Exported(EmptyDedup(), []))
    else
      var prev :- ExportSlots(slots[..|slots| - 1]);
      var slot := slots[|slots| - 1];
      var bad := FirstNonTriangle(slot.faces);
      if bad.Some? then Err(NotTriangle(bad.value))
      else
        var before := prev.state;
        var after := AddLoops(before, FaceLoops(slot.faces));
        var mat := Material(slot.name, |before.vertices|, |after.vertices| - |before.vertices|,
                            |before.indices|, |after.indices| - |before.indices|);
        Ok(Exported(after, prev.materials + [mat]))
  }

  function FaceCount<K, V>(slots: seq<Slot<K, V>>): nat {
    if slots == [] then 0 else FaceCount(slots[..|slots| - 1]) + |slots[|slots| - 1].faces|
  }

  lemma {:induction false} FaceLoopsLength<K, V>(faces: seq<seq<Loop<K, V>>>)
    requires Triangles(faces)
    ensures |FaceLoops(faces)| == 3 * |faces|
  {
    if faces != [] {
      FaceLoopsLength(faces[..|faces| - 1]);
    }
  }

  lemma {:induction false} AddLoopsGrows<K, V>(st: Dedup<K, V>, ls: seq<Loop<K, V>>)
    requires |st.keys| == |st.vertices|
    ensures |AddLoops(st, ls).indices| == |st.indices| + |ls|
    ensures |AddLoops(st, ls).vertices| >= |st.vertices|
    ensures |AddLoops(st, ls).keys| == |AddLoops(st, ls).vertices|
  {
    if ls != [] {
      AddLoopsGrows(st, ls[..|ls| - 1]);
    }
  }

  /** The export succeeds exactly when every face of every slot is a triangle. */
  lemma {:induction false} ExportSlotsOk<K, V>(slots: seq<Slot<K, V>>)
    ensures ExportSlots(slots).Ok? <==> forall s :: 0 <= s < |slots| ==> Triangles(slots[s].faces)
  {
    if slots != [] {
      var n := |slots| - 1;
      ExportSlotsOk(slots[..n]);
      assert forall s :: 0 <= s < n ==> slots[s] == slots[..n][s];
    }
  }

  /** On success the shared dictionary is the deduplication of all loops in slot order. */
  lemma {:induction false} ExportSlotsState<K, V>(slots: seq<Slot<K, V>>)
    ensures ExportSlots(slots).Ok? ==> ExportSlots(slots).value.state == AddLoops(EmptyDedup(), SlotLoops(slots))
  {
    if slots != [] && ExportSlots(slots).Ok? {
      var n := |slots| - 1;
      ExportSlotsState(slots[..n]);
      AddLoopsAppend(EmptyDedup(), SlotLoops(slots[..n]), FaceLoops(slots[n].faces));
    }
  }

  /**
   * Material `s` names slot `s`, covers three indices per face starting
   * after the earlier slots' faces, and its vertex range ends where the
   * next slot's begins (or at the end of the vertex list).
   */
  predicate SlotRange<K, V>(slots: seq<Slot<K, V>>, mats: seq<Material>, vertexCount: int, s: int)
    requires 0 <= s < |slots| == |mats|
  {
    && mats[s].name == slots[s].name
    && mats[s].startIndex == 3 * FaceCount(slots[..s])
    && mats[s].numIndices == 3 * |slots[s].faces|
    && mats[s].numVertices >= 0
    && mats[s].startVertex + mats[s].numVertices
       == (if s + 1 < |slots| then mats[s + 1].startVertex else vertexCount)
  }

  /**
   * On success the material ranges tile the index list (three per face) and
   * the vertex list, in slot order, starting at zero.
   */
  lemma {:induction false} ExportSlotsRanges<K, V>(slots: seq<Slot<K, V>>)
    ensures ExportSlots(slots).Ok? ==>
              var e := ExportSlots(slots).value;
              && |e.state.keys| == |e.state.vertices|
              && |e.state.indices| == 3 * FaceCount(slots)
              && (slots != [] ==> e.materials[0].startVertex == 0)
              && forall s :: 0 <= s < |slots| ==> SlotRange(slots, e.materials, |e.state.vertices|, s)
  {
    if slots != [] && ExportSlots(slots).Ok? {
      var n := |slots| - 1;
      var init, slot := slots[..n], slots[n];
      ExportSlotsRanges(init);
      var prev := ExportSlots(init).value;
      var loops := FaceLoops(slot.faces);
      FaceLoopsLength(slot.faces);
      AddLoopsGrows(prev.state, loops);
      var e := ExportSlots(slots).value;
      assert e.materials == prev.materials + [e.materials[n]];
      assert FaceCount(slots) == FaceCount(init) + |slot.faces|;
      SlotRangesExtend(slots, prev.materials, |prev.state.vertices|, e.materials[n], |e.state.vertices|);
    }
  }

  /** The ranges of the earlier slots stay valid when one more slot follows them. */
  lemma SlotRangesExtend<K, V>(slots: seq<Slot<K, V>>, prev: seq<Material>, prevCount: int, m: Material, count: int)
    requires |slots| == |prev| + 1
    requires forall s :: 0 <= s < |prev| ==> SlotRange(slots[..|prev|], prev, prevCount, s)
    requires m.name == slots[|prev|].name && m.startIndex == 3 * FaceCount(slots[..|prev|])
    requires m.numIndices == 3 * |slots[|prev|].faces| && m.numVertices >= 0
    requires m.startVertex == prevCount && m.startVertex + m.numVertices == count
    ensures forall s :: 0 <= s < |slots| ==> SlotRange(slots, prev + [m], count, s)
  {
    var n, init, mats := |prev|, slots[..|prev|], prev + [m];
    forall s | 0 <= s < |slots| ensures SlotRange(slots, mats, count, s) {
      if s < n {
        assert SlotRange(init, prev, prevCount, s);
        assert slots[s] == init[s] && slots[..s] == init[..s] && mats[s] == prev[s];
        if s + 1 < n {
          assert mats[s + 1] == prev[s + 1];
        }
      }
    }
  }

  // -----------------------------------------------------------------------
  // Bounding sphere, header, trailer

  type Point = s: seq<real> | |s| == 3 witness [0.0, 0.0, 0.0]

  /**
   * The approximate bounding sphere: the box centre, and the largest of the
   * three half-extents, never below zero.
   */
  method BoundingSphere(boxMin: Point, boxMax: Point) returns (centre: Point, radius: real)
    ensures forall i :: 0 <= i < 3 ==> centre[i] - boxMin[i] == boxMax[i] - centre[i]
    ensures radius >= 0.0
    ensures forall i :: 0 <= i < 3 ==> radius >= centre[i] - boxMin[i]
    ensures radius == 0.0 || exists i :: 0 <= i < 3 && radius == centre[i] - boxMin[i]
  {
    centre := [(boxMax[0] + boxMin[0]) * 0.5, (boxMax[1] + boxMin[1]) * 0.5, (boxMax[2] + boxMin[2]) * 0.5];
    radius := 0.0;
    var i := 0;
    while i < 3
      invariant 0 <= i <= 3
      invariant radius >= 0.0
      invariant forall j :: 0 <= j < i ==> radius >= centre[j] - boxMin[j]
      invariant radius == 0.0 || exists j :: 0 <= j < i && radius == centre[j] - boxMin[j]
    {
      var distance := centre[i] - boxMin[i];
      if distance > radius {
        radius := distance;
      }
      i := i + 1;
    }
  }

  /** The block size stored in version-4 metadata: 56 with vertex colours, else 52. */
  function VertexBlockSize(containsVertexColor: bool): (n: uint32)
    ensures n == 52 + (if containsVertexColor then 4 else 0)
  {
    if containsVertexColor then 56 else 52
  }

  const NewMagic: int32 := 1122867

  /**
   * The header written: the imported file's header when basing the export
   * on an import, otherwise a fresh one. A version outside 1, 2 and 4
   * raises unless the export is based on an import.
   */
  function ExportHeader(version: int, baseOnImport: bool, imported: seq<byte>): (r: Result<Header, Error>)
    ensures !Counted(version) && !baseOnImport ==> r == Err(UnsupportedVersion(version))
    ensures Counted(version) && !baseOnImport ==> r.Ok?
    ensures baseOnImport ==> (r.Ok? <==> ImportSkn(imported).Ok?)
    ensures baseOnImport && r.Ok? ==> r.value == ImportSkn(imported).value.header
    ensures !baseOnImport && r.Ok? ==>
              && r.value.magic == NewMagic && r.value.version == version
              && r.value.numObjects == 1 && r.value.endTab == DefaultZeros
  {
    if !Counted(version) && !baseOnImport then Err(UnsupportedVersion(version))
    else if baseOnImport then
      var m :- ImportSkn(imported);
      Ok(m.header)
    else
      Ok(Header(NewMagic, version, 1, 0, DefaultZeros))
  }

  /** `header.endTab[0..3]` when the list has at least three entries. */
  function EndTabTriple(t: EndTab): seq<int32> {
    match t
    case DefaultZeros => [0, 0, 0]
    case Wrapped(a, b, c) => [a, b, c]
  }

  /**
   * The trailer `exportSKN` writes from version 2 on: the header's list is
   * replaced by zeros when it has fewer than three entries, which the
   * one-element list an import stores always has.
   */
  function ExportTrailer(h: Header, version: int): (b: seq<byte>)
    ensures |b| == if version >= 2 then 12 else 0
  {
    if version >= 2 then
      var tab := if h.endTab.Length() < 3 then [0, 0, 0] else EndTabTriple(h.endTab);
      WordBytes(Uint32s(tab))
    else []
  }

  /** Written as above, an imported trailer is always lost: it reads back as zeros. */
  lemma ExportTrailerDropsImport(h: Header, version: int)
    requires version >= 2
    ensures ReadTrailer(Cursor(ExportTrailer(h, version), 0), version).Ok?
    ensures ReadTrailer(Cursor(ExportTrailer(h, version), 0), version).value.value == Wrapped(0, 0, 0)
  {
    var t := Wrapped(0, 0, 0);
    assert ExportTrailer(h, version) == TrailerLayout(t);
    ReadTrailerAt(Cursor(ExportTrailer(h, version), 0), t, version);
  }

  /** An imported trailer that is not all zeros does not survive the export. */
  lemma ExportTrailerLosesValues(a: int32, b: int32, c: int32, h: Header, version: int)
    requires version >= 2 && h.endTab == Wrapped(a, b, c) && [a, b, c] != [0, 0, 0]
    ensures ReadTrailer(Cursor(ExportTrailer(h, version), 0), version).value.value != h.endTab
  {
    ExportTrailerDropsImport(h, version);
  }

  /** The trailer as evidently intended: the imported triple, or zeros for a fresh header. */
  function ExportTrailerPreserving(h: Header, version: int): (b: seq<byte>)
    ensures |b| == if version >= 2 then 12 else 0
  {
    if version < 2 then []
    else if h.endTab.Wrapped? then TrailerLayout(h.endTab)
    else TrailerLayout(Wrapped(0, 0, 0))
  }

  lemma ExportTrailerPreservingRoundTrip(h: Header, version: int)
    requires version >= 2 && h.endTab.Wrapped?
    ensures ReadTrailer(Cursor(ExportTrailerPreserving(h, version), 0), version)
            == Ok(Parsed(h.endTab, Cursor(ExportTrailerPreserving(h, version), 12)))
  {
    ReadTrailerAt(Cursor(ExportTrailerPreserving(h, version), 0), h.endTab, version);
  }

  // -----------------------------------------------------------------------
  // Material count, indices and bone ids as packed

  /**
   * What `exportSKN` writes between the header and the metadata: the
   * material count when `numObjects > 0`, whatever the version, then one
   * `sknMaterial.toFile` per slot, which always raises. A count that does
   * not fit `<i` raises first.
   */
  function ExportMaterialBlock(h: Header, numMats: nat): (r: Result<seq<byte>, Error>)
    ensures h.numObjects <= 0 ==> r == Ok([])
    ensures h.numObjects > 0 ==> (r.Ok? <==> numMats == 0)
    ensures r.Err? && InInt32(numMats) ==> r.error == MaterialNotPackable
    ensures r.Ok? ==> |r.value| == if h.numObjects > 0 then 4 else 0
  {
    if h.numObjects <= 0 then Ok([])
    else if !InInt32(numMats) then Err(OutOfRange(numMats))
    else if numMats > 0 then Err(MaterialNotPackable)
    else Ok(I32Bytes(0))
  }

  /** The header `importSKN` makes of a header block followed by `rest`, whatever the count. */
  lemma ReadHeaderBlock(h: Header, count: seq<byte>, rest: seq<byte>)
    requires KnownVersion(h.version) && |count| == 4
    ensures var hr := h.(numMaterials := if Counted(h.version) then Int32Of(LeU32(count)) else 1,
                         endTab := DefaultZeros);
            ReadHeader(Cursor(EncodeHeader(h) + count + rest, 0))
              == Ok(Parsed(hr, Cursor(EncodeHeader(h) + count + rest, if Counted(h.version) then 12 else 8)))
  {
    var hr := h.(numMaterials := if Counted(h.version) then Int32Of(LeU32(count)) else 1,
                 endTab := DefaultZeros);
    var data := EncodeHeader(h) + count + rest;
    if Counted(h.version) {
      Uint32OfInt32(LeU32(count));
      U32BytesOfLe(count);
      assert CountBytes(hr) == count;
      assert data[..12] == EncodeHeader(hr) + CountBytes(hr);
    } else {
      assert data[..8] == EncodeHeader(hr) + CountBytes(hr);
    }
    ReadHeaderAt(Cursor(data, 0), hr);
  }

  /**
   * As written, the reader resumes where the exporter's material block
   * ends iff `numObjects > 0` agrees with the reader's version rule. When a
   * version-1, -2 or -4 header has `numObjects <= 0` the count is missing
   * and the reader takes the first metadata word for it.
   */
  lemma ExportMaterialBlockDesync(h: Header, numMats: nat, rest: seq<byte>)
    requires KnownVersion(h.version) && ExportMaterialBlock(h, numMats).Ok? && |rest| >= 4
    ensures var w := EncodeHeader(h) + ExportMaterialBlock(h, numMats).value;
            var r := ReadHeader(Cursor(w + rest, 0));
            && r.Ok?
            && (r.value.rest.pos == |w| <==> (Counted(h.version) <==> h.numObjects > 0))
            && (Counted(h.version) && h.numObjects <= 0 ==> r.value.value.numMaterials == Int32Of(LeU32(rest[..4])))
  {
    var blk := ExportMaterialBlock(h, numMats).value;
    var data := EncodeHeader(h) + blk + rest;
    if h.numObjects > 0 {
      assert data == EncodeHeader(h) + blk + rest;
      ReadHeaderBlock(h, blk, rest);
    } else {
      assert data == EncodeHeader(h) + rest[..4] + rest[4..];
      ReadHeaderBlock(h, rest[..4], rest[4..]);
    }
  }

  /** The material count as evidently intended: written exactly when the reader takes one. */
  function ExportCountMatching(h: Header, numMats: nat): (r: Result<seq<byte>, Error>)
    ensures r.Ok? <==> !Counted(h.version) || InInt32(numMats)
    ensures r.Ok? ==> r.value == CountBytes(h.(numMaterials := numMats))
  {
    if !Counted(h.version) then Ok([])
    else if !InInt32(numMats) then Err(OutOfRange(numMats))
    else Ok(I32Bytes(numMats))
  }

  /** With the matching count the header block reads back, count included, for every version. */
  lemma ExportCountMatchingReadsBack(h: Header, numMats: nat, rest: seq<byte>)
    requires KnownVersion(h.version) && ExportCountMatching(h, numMats).Ok?
    ensures var w := EncodeHeader(h) + ExportCountMatching(h, numMats).value;
            ReadHeader(Cursor(w + rest, 0))
              == Ok(Parsed(h.(numMaterials := if Counted(h.version) then numMats else 1, endTab := DefaultZeros),
                           Cursor(w + rest, |w|)))
  {
    var hr := h.(numMaterials := if Counted(h.version) then numMats else 1, endTab := DefaultZeros);
    var w := EncodeHeader(h) + ExportCountMatching(h, numMats).value;
    assert w == EncodeHeader(hr) + CountBytes(hr);
    assert (w + rest)[..|w|] == w;
    ReadHeaderAt(Cursor(w + rest, 0), hr);
  }

  /** Reference definition: the position of the first element outside `lo .. hi - 1`. */
  function FirstOutside(xs: seq<int>, lo: int, hi: int): (r: Option<nat>)
    ensures r.None? <==> forall i :: 0 <= i < |xs| ==> lo <= xs[i] < hi
    ensures r.Some? ==> && r.value < |xs| && !(lo <= xs[r.value] < hi)
                        && forall i :: 0 <= i < r.value ==> lo <= xs[i] < hi
  {
    if xs == [] then None
    else if !(lo <= xs[0] < hi) then Some(0)
    else
      match FirstOutside(xs[1..], lo, hi)
      case None => None
      case Some(i) => Some(i + 1)
  }

  /**
   * `struct.pack('<h', idx)` for each exported index in turn: the first
   * index above 0x7fff raises, so at most 32768 vertices can be referenced.
   */
  function ExportIndices(xs: seq<nat>): (r: Result<seq<byte>, Error>)
    ensures r.Ok? <==> forall i :: 0 <= i < |xs| ==> xs[i] < 0x8000
    ensures r.Err? ==> exists i :: && 0 <= i < |xs| && xs[i] >= 0x8000 && r.error == OutOfRange(xs[i])
                                   && forall j :: 0 <= j < i ==> xs[j] < 0x8000
    ensures r.Ok? ==> |r.value| == 2 * |xs|
  {
    match FirstOutside(xs, 0, 0x8000)
    case Some(i) => Err(OutOfRange(xs[i]))
    case None =>
      var ys: seq<int16> := seq(|xs|, i requires 0 <= i < |xs| => xs[i]);
      Ok(IndexBytes(ys))
  }

  /** Packed indices read back as themselves through the importer's `<h` reads. */
  lemma ExportIndicesReadBack(xs: seq<nat>, c: Cursor)
    requires ExportIndices(xs).Ok? && At(c, ExportIndices(xs).value)
    ensures ReadIndices(c, |xs|).Ok?
    ensures ReadIndices(c, |xs|).value.value == xs
    ensures ReadIndices(c, |xs|).value.rest == c.Skip(2 * |xs|)
  {
    var ys: seq<int16> := seq(|xs|, i requires 0 <= i < |xs| => xs[i]);
    assert ExportIndices(xs).value == IndexBytes(ys);
    ReadIndicesAt(c, ys);
  }

  /** A mesh of at most 32768 exported vertices always has its indices packed. */
  lemma ExportSlotsIndicesFit<K, V>(slots: seq<Slot<K, V>>)
    requires ExportSlots(slots).Ok? && |ExportSlots(slots).value.state.vertices| <= 0x8000
    ensures ExportIndices(ExportSlots(slots).value.state.indices).Ok?
  {
    ExportSlotsState(slots);
    AddLoopsCorrect(SlotLoops(slots));
  }

  /**
   * The four bone ids of a vertex as `sknVertex.toFile` packs them with
   * `b`: the groups unchanged, and the first one outside -128 .. 127 raises.
   */
  function ExportBoneIds(groups: seq<int>): (r: Result<BoneIds, Error>)
    requires |groups| == 4
    ensures r.Ok? <==> forall i :: 0 <= i < 4 ==> -0x80 <= groups[i] < 0x80
    ensures r.Err? ==> exists i :: && 0 <= i < 4 && !(-0x80 <= groups[i] < 0x80) && r.error == OutOfRange(groups[i])
                                   && forall j :: 0 <= j < i ==> -0x80 <= groups[j] < 0x80
    ensures r.Ok? ==> r.value == groups
  {
    match FirstOutside(groups, -0x80, 0x80)
    case Some(i) => Err(OutOfRange(groups[i]))
    case None =>
      var ids: seq<int8> := seq(4, i requires 0 <= i < 4 => groups[i]);
      Ok(ids)
  }

  /** Packed bone ids read back as the groups, with or without the colour block. */
  lemma ExportBoneIdsReadBack(v: Vertex, groups: seq<int>, containsVertexColor: bool, c: Cursor)
    requires |groups| == 4 && ExportBoneIds(groups) == Ok(v.boneIndex)
    requires At(c, EncodeVertex(v, if containsVertexColor then 1 else 0))
    ensures ReadVertex(c, if containsVertexColor then 1 else 0).Ok?
    ensures ReadVertex(c, if containsVertexColor then 1 else 0).value.value.boneIndex == groups
  {
    ReadVertexAt(c, v, if containsVertexColor then 1 else 0);
  }

  /** `1 - v`: the UV flip applied on export (and on `.sco` import). */
  function FlipV(uv: seq<real>): (r: seq<real>)
    requires |uv| == 2
    ensures |r| == 2 && r[0] == uv[0] && r[1] + uv[1] == 1.0
  {
    [uv[0], 1.0 - uv[1]]
  }

  lemma FlipVInvolution(uv: seq<real>)
    requires |uv| == 2
    ensures FlipV(FlipV(uv)) == uv
  {
  }
}
