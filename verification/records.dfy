/**
 * Runs of fixed-shape records: reading `n` of them one after another, the
 * bytes a list of them occupies, and the round trip between the two for any
 * record reader that reads back what its encoder writes.
 */
module Records {
  import opened Wrappers
  import opened Errors
  import opened Bytes

  /** `for i in range(n): read one record`, stopping at the first failure. */
  function ReadMany<T>(c: Cursor, n: nat, read: Cursor -> Result<Parsed<T>, Error>)
    : (r: Result<Parsed<seq<T>>, Error>)
    ensures r.Ok? ==> |r.value.value| == n
    decreases n
  {
    if n == 0 then Ok(Parsed([], c))
    else
      var first :- read(c);
      var more :- ReadMany(first.rest, n - 1, read);
      Ok(Parsed([first.value] + more.value, more.rest))
  }

  /** The records' encodings, back to back. */
  function Concat<T>(xs: seq<T>, enc: T --> seq<byte>): seq<byte>
    requires forall i :: 0 <= i < |xs| ==> enc.requires(xs[i])
  {
    if xs == [] then [] else enc(xs[0]) + Concat(xs[1..], enc)
  }

  /** `read` recovers the record `x` from its encoding, wherever it lies. */
  ghost predicate ReadsBack<T>(read: Cursor -> Result<Parsed<T>, Error>, enc: T --> seq<byte>, x: T)
    requires enc.requires(x)
  {
    forall d: Cursor :: At(d, enc(x)) ==> read(d) == Ok(Parsed(x, d.Skip(|enc(x)|)))
  }

  lemma ReadManyCons<T>(c: Cursor, xs: seq<T>, read: Cursor -> Result<Parsed<T>, Error>, c1: Cursor, c2: Cursor)
    requires xs != []
    requires read(c) == Ok(Parsed(xs[0], c1))
    requires ReadMany(c1, |xs| - 1, read) == Ok(Parsed(xs[1..], c2))
    ensures ReadMany(c, |xs|, read) == Ok(Parsed(xs, c2))
  {
    assert [xs[0]] + xs[1..] == xs;
  }

  /** Reading `|xs|` records from their concatenated encodings gives `xs` back. */
  lemma {:induction false} ReadManyAt<T>(c: Cursor, xs: seq<T>,
                                         read: Cursor -> Result<Parsed<T>, Error>, enc: T --> seq<byte>)
    requires forall i :: 0 <= i < |xs| ==> enc.requires(xs[i])
    requires forall i :: 0 <= i < |xs| ==> ReadsBack(read, enc, xs[i])
    requires At(c, Concat(xs, enc))
    ensures ReadMany(c, |xs|, read) == Ok(Parsed(xs, c.Skip(|Concat(xs, enc)|)))
    decreases |xs|
  {
    if xs != [] {
      var first := enc(xs[0]);
      var rest := Concat(xs[1..], enc);
      AtAppend(c, first, rest);
      assert ReadsBack(read, enc, xs[0]);
      var c1 := c.Skip(|first|);
      assert forall i :: 0 <= i < |xs[1..]| ==> ReadsBack(read, enc, xs[1..][i]) by {
        forall i | 0 <= i < |xs[1..]| ensures ReadsBack(read, enc, xs[1..][i]) {
          assert xs[1..][i] == xs[i + 1];
        }
      }
      ReadManyAt(c1, xs[1..], read, enc);
      ReadManyCons(c, xs, read, c1, c1.Skip(|rest|));
      assert c1.Skip(|rest|) == c.Skip(|Concat(xs, enc)|);
    } else {
      assert c.Skip(|Concat(xs, enc)|) == c;
    }
  }

  /** A property every successful single read has holds of every record a run reads. */
  lemma {:induction false} ReadManyEach<T>(c: Cursor, n: nat, read: Cursor -> Result<Parsed<T>, Error>,
                                           p: T -> bool)
    requires forall d: Cursor :: read(d).Ok? ==> p(read(d).value.value)
    ensures ReadMany(c, n, read).Ok? ==>
              forall i :: 0 <= i < n ==> p(ReadMany(c, n, read).value.value[i])
    decreases n
  {
    if n > 0 && read(c).Ok? {
      ReadManyEach(read(c).value.rest, n - 1, read, p);
    }
  }

  /** Two runs whose records encode alike concatenate alike. */
  lemma {:induction false} ConcatPointwise<T, U>(xs: seq<T>, enc: T --> seq<byte>,
                                                 ys: seq<U>, enc2: U --> seq<byte>)
    requires |xs| == |ys|
    requires forall i :: 0 <= i < |xs| ==> enc.requires(xs[i]) && enc2.requires(ys[i])
    requires forall i :: 0 <= i < |xs| ==> enc(xs[i]) == enc2(ys[i])
    ensures Concat(xs, enc) == Concat(ys, enc2)
    decreases |xs|
  {
    if xs != [] {
      assert forall i :: 0 <= i < |xs| - 1 ==> xs[1..][i] == xs[i + 1] && ys[1..][i] == ys[i + 1];
      ConcatPointwise(xs[1..], enc, ys[1..], enc2);
    }
  }

  /** Records of one fixed size take that size each. */
  lemma {:induction false} ConcatLength<T>(xs: seq<T>, enc: T --> seq<byte>, size: nat)
    requires forall i :: 0 <= i < |xs| ==> enc.requires(xs[i]) && |enc(xs[i])| == size
    ensures |Concat(xs, enc)| == size * |xs|
    decreases |xs|
  {
    if xs != [] {
      assert forall i :: 0 <= i < |xs| - 1 ==> xs[1..][i] == xs[i + 1];
      ConcatLength(xs[1..], enc, size);
    }
  }
}
