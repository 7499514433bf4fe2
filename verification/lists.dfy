/** Small facts about sequences shared by the export and text-parsing models. */
module Lists {

  /** Reference definition: the distinct elements of `ks` in order of first occurrence. */
  function Nub<K(==)>(ks: seq<K>): seq<K> {
    if ks == [] then []
    else
      var p := Nub(ks[..|ks| - 1]);
      if ks[|ks| - 1] in p then p else p + [ks[|ks| - 1]]
  }

  /** One more key: it is kept iff it is new. */
  lemma NubSnoc<K>(ks: seq<K>, x: K)
    ensures Nub(ks + [x]) == if x in Nub(ks) then Nub(ks) else Nub(ks) + [x]
  {
    assert (ks + [x])[..|ks|] == ks;
  }

  predicate Distinct<K(==)>(ks: seq<K>) {
    forall i, j :: 0 <= i < j < |ks| ==> ks[i] != ks[j]
  }

  lemma {:induction false} NubCorrect<K>(ks: seq<K>)
    ensures Distinct(Nub(ks))
    ensures forall x :: x in Nub(ks) <==> x in ks
  {
    if ks != [] {
      var init := ks[..|ks| - 1];
      NubCorrect(init);
      assert ks == init + [ks[|ks| - 1]];
    }
  }
}
