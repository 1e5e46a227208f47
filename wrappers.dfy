/** Option and Result, the two failure-carrying shapes the modelled code uses:
    `Option` for a value that may be absent and `Result` for `anyhow::Result`,
    whose error side is a short description of what failed. */
module Wrappers {

  datatype Option<+T> = None | Some(value: T) {
    function GetOr(default: T): T {
      match this
      case Some(v) => v
      case None => default
    }
  }

  datatype Result<+T> = Ok(value: T) | Err(error: string)

  /** `a` in front of the list a fallible computation produces; its error is kept. */
  function Prepend<T>(a: seq<T>, r: Result<seq<T>>): (q: Result<seq<T>>)
    ensures q.Ok? <==> r.Ok?
    ensures q.Ok? ==> q.value == a + r.value
    ensures q.Err? ==> q.error == r.error
  {
    match r
    case Ok(b) => Ok(a + b)
    case Err(e) => Err(e)
  }

  lemma PrependEmpty<T>(r: Result<seq<T>>)
    ensures Prepend([], r) == r
  {
    if r.Ok? {
      assert [] + r.value == r.value;
    }
  }

  lemma PrependPrepend<T>(a: seq<T>, b: seq<T>, r: Result<seq<T>>)
    ensures Prepend(a, Prepend(b, r)) == Prepend(a + b, r)
  {
    if r.Ok? {
      assert a + (b + r.value) == (a + b) + r.value;
    }
  }

  /** What comes of a scraper's row: `None` is a panic, `Some(Err(..))` an error
      passed up with `?`, `Some(Ok(..))` the decoded value. */
  type Outcome<T> = Option<Result<T>>

  /** The list decoded so far, `a`, in front of the outcome of the rest. */
  function Then<T>(a: seq<T>, r: Outcome<seq<T>>): (q: Outcome<seq<T>>)
    ensures q.Some? <==> r.Some?
    ensures q.Some? ==> q.value == Prepend(a, r.value)
  {
    match r
    case None => None
    case Some(x) => Some(Prepend(a, x))
  }

  /** Two lists decoded one after the other: a panic or an error in the first
      ends everything. */
  function Sequence<T>(r1: Outcome<seq<T>>, r2: Outcome<seq<T>>): (q: Outcome<seq<T>>)
    ensures r1.None? ==> q.None?
    ensures r1.Some? && r1.value.Err? ==> q == r1
    ensures r1.Some? && r1.value.Ok? ==> q == Then(r1.value.value, r2)
  {
    match r1
    case None => None
    case Some(Err(e)) => Some(Err(e))
    case Some(Ok(a)) => Then(a, r2)
  }

  /** The rows of a page decoded in order: the first panic or error ends the
      loop, otherwise every row's value is kept, in order. */
  function Collect<T>(outs: seq<Outcome<T>>): (r: Outcome<seq<T>>)
    ensures r.Some? && r.value.Ok? ==> |r.value.value| == |outs|
  {
    if outs == [] then Some(Ok([]))
    else
      match outs[0]
      case None => None
      case Some(Err(e)) => Some(Err(e))
      case Some(Ok(x)) => Then([x], Collect(outs[1..]))
  }

  /** A list that decoded holds, at every position, that row's value. */
  lemma {:induction false} CollectAt<T>(outs: seq<Outcome<T>>, k: nat)
    requires Collect(outs).Some? && Collect(outs).value.Ok?
    requires k < |outs|
    ensures outs[k].Some? && outs[k].value.Ok?
    ensures Collect(outs).value.value[k] == outs[k].value.value
    decreases k
  {
    var rest := Collect(outs[1..]);
    assert rest.Some? && rest.value.Ok?;
    assert Collect(outs).value.value == [outs[0].value.value] + rest.value.value;
    if k > 0 {
      assert outs[1..][k - 1] == outs[k];
      CollectAt(outs[1..], k - 1);
    }
  }

  /** Every row decoded: the list is theirs. */
  lemma {:induction false} CollectAllOk<T>(outs: seq<Outcome<T>>)
    requires forall k :: 0 <= k < |outs| ==> outs[k].Some? && outs[k].value.Ok?
    ensures Collect(outs).Some? && Collect(outs).value.Ok?
  {
    if outs != [] {
      assert forall k :: 0 <= k < |outs[1..]| ==> outs[1..][k] == outs[k + 1];
      CollectAllOk(outs[1..]);
    }
  }

  /** An error names the first row that failed; every row before it decoded. */
  lemma {:induction false} CollectErr<T>(outs: seq<Outcome<T>>)
    requires Collect(outs).Some? && Collect(outs).value.Err?
    ensures exists k :: 0 <= k < |outs| && outs[k] == Some(Err(Collect(outs).value.error))
              && forall j :: 0 <= j < k ==> outs[j].Some? && outs[j].value.Ok?
  {
    var e := Collect(outs).value.error;
    if outs[0].value.Ok? {
      CollectErr(outs[1..]);
      var k :| 0 <= k < |outs[1..]| && outs[1..][k] == Some(Err(e))
               && forall j :: 0 <= j < k ==> outs[1..][j].Some? && outs[1..][j].value.Ok?;
      assert outs[k + 1] == Some(Err(e));
      forall j | 0 <= j < k + 1 ensures outs[j].Some? && outs[j].value.Ok? {
        if j > 0 {
          assert outs[1..][j - 1] == outs[j];
        }
      }
    } else {
      assert outs[0] == Some(Err(e));
    }
  }

  /** Decoding two runs of rows one after the other is decoding them together. */
  lemma {:induction false} CollectAppend<T>(a: seq<Outcome<T>>, b: seq<Outcome<T>>)
    ensures Collect(a + b) == Sequence(Collect(a), Collect(b))
    decreases |a|
  {
    if a == [] {
      assert a + b == b;
      if Collect(b).Some? {
        PrependEmpty(Collect(b).value);
      }
    } else {
      assert (a + b)[0] == a[0] && (a + b)[1..] == a[1..] + b;
      CollectAppend(a[1..], b);
      match a[0]
      case None =>
      case Some(Err(e)) =>
      case Some(Ok(x)) =>
        match Collect(b)
        case None =>
        case Some(y) =>
          match Collect(a[1..])
          case None =>
          case Some(Err(e)) =>
          case Some(Ok(t)) => PrependPrepend([x], t, y);
    }
  }

  /** The row a loop is at did not panic when the rest did not; if it is an error,
      that error is what the rest comes to. */
  lemma CollectHead<T>(outs: seq<Outcome<T>>, i: nat)
    requires i < |outs| && Collect(outs[i..]).Some?
    ensures outs[i].Some?
    ensures outs[i].value.Err? ==> Collect(outs[i..]).value == Err(outs[i].value.error)
  {
    assert outs[i..][0] == outs[i];
  }

  /** One step of a scraper's loop: a row that decoded moves from the rest of
      the input to the list built so far. */
  lemma CollectStep<T>(outs: seq<Outcome<T>>, i: nat, built: seq<T>)
    requires i < |outs| && outs[i].Some? && outs[i].value.Ok?
    requires Collect(outs[i..]).Some?
    ensures Collect(outs[i + 1..]).Some?
    ensures Prepend(built, Collect(outs[i..]).value)
         == Prepend(built + [outs[i].value.value], Collect(outs[i + 1..]).value)
  {
    assert outs[i..][0] == outs[i] && outs[i..][1..] == outs[i + 1..];
    PrependPrepend(built, [outs[i].value.value], Collect(outs[i + 1..]).value);
  }

  // ---------------------------------------------------------------------------
  // Sequences
  // ---------------------------------------------------------------------------

  /** Appending one element keeps the earlier ones in place. */
  lemma SnocAt<T>(a: seq<T>, x: T, k: nat)
    requires k <= |a|
    ensures (a + [x])[k] == if k < |a| then a[k] else x
  {
  }

  /** A prefix of a prefix is a prefix. */
  lemma TakeTake<T>(s: seq<T>, n: nat, i: nat)
    requires i <= n <= |s|
    ensures s[..n][..i] == s[..i]
  {
  }

  /** The front of a suffix is a slice. */
  lemma DropTake<T>(s: seq<T>, i: nat, n: nat)
    requires i + n <= |s|
    ensures s[i..][..n] == s[i..i + n]
  {
  }

  /** A suffix of a suffix is a suffix. */
  lemma DropDrop<T>(s: seq<T>, i: nat, n: nat)
    requires i + n <= |s|
    ensures s[i..][n..] == s[i + n..]
  {
  }

  /** A suffix ends with the last element. */
  lemma DropLast<T>(s: seq<T>, i: nat)
    requires i < |s|
    ensures s[i..] == s[..|s| - 1][i..] + [s[|s| - 1]]
  {
  }

  /** A slice avoids what the whole sequence avoids. */
  lemma SliceAvoids<T>(s: seq<T>, i: nat, j: nat, bad: seq<T>)
    requires i <= j <= |s|
    requires forall k :: 0 <= k < |s| ==> s[k] !in bad
    ensures forall k :: 0 <= k < j - i ==> s[i..j][k] !in bad
  {
    forall k | 0 <= k < j - i ensures s[i..j][k] !in bad {
      assert s[i..j][k] == s[i + k];
    }
  }

  /** Concatenation is associative. */
  lemma AppendAssoc<T>(a: seq<T>, b: seq<T>, c: seq<T>)
    ensures (a + b) + c == a + (b + c)
  {
  }

  /** A slice of `tail` sits in `pre + tail` shifted by `|pre|`. */
  lemma SliceShift<T>(pre: seq<T>, tail: seq<T>, i: nat, j: nat)
    requires i <= j <= |tail|
    ensures (pre + tail)[|pre| + i..|pre| + j] == tail[i..j]
  {
  }

  /** A slice is its two halves, cut anywhere inside it. */
  lemma SliceSplit<T>(s: seq<T>, i: nat, j: nat, k: nat)
    requires i <= j <= k <= |s|
    ensures s[i..k] == s[i..j] + s[j..k]
  {
  }

  /** The head and tail of a concatenation whose first part is not empty. */
  lemma HeadTailAppend<T>(a: seq<T>, b: seq<T>)
    requires a != []
    ensures (a + b)[0] == a[0] && (a + b)[1..] == a[1..] + b
  {
  }

  /** Taking every element gives the whole sequence. */
  lemma TakeAll<T>(s: seq<T>)
    ensures s[..|s|] == s
  {
  }

  /** `f` applied to each element, in order. */
  function Map<A, B>(f: A --> B, xs: seq<A>): (ys: seq<B>)
    requires forall k :: 0 <= k < |xs| ==> f.requires(xs[k])
    ensures |ys| == |xs|
  {
    if xs == [] then [] else Map(f, xs[..|xs| - 1]) + [f(xs[|xs| - 1])]
  }

  /** Element `k` of the image is the image of element `k`. */
  lemma {:induction false} MapAt<A, B>(f: A --> B, xs: seq<A>, k: nat)
    requires forall k :: 0 <= k < |xs| ==> f.requires(xs[k])
    requires k < |xs|
    ensures Map(f, xs)[k] == f(xs[k])
  {
    var n := |xs| - 1;
    if k < n {
      assert xs[..n][k] == xs[k];
      MapAt(f, xs[..n], k);
    }
  }

  /** The image of one element more. */
  lemma MapSnoc<A, B>(f: A --> B, xs: seq<A>, i: nat)
    requires forall k :: 0 <= k < |xs| ==> f.requires(xs[k])
    requires i < |xs|
    ensures Map(f, xs[..i + 1]) == Map(f, xs[..i]) + [f(xs[i])]
  {
    var p := xs[..i + 1];
    assert p[..i] == xs[..i];
  }

  /** Each of four joined pieces is found where it was put. */
  lemma PiecesOf4<T>(a: seq<T>, b: seq<T>, c: seq<T>, d: seq<T>)
    ensures var s := a + b + c + d;
            && s[0..|a|] == a
            && s[|a|..|a| + |b|] == b
            && s[|a| + |b|..|a| + |b| + |c|] == c
            && s[|a| + |b| + |c|..] == d
  {
    var s := a + b + c + d;
    assert s[0..|a|] == a;
    assert s[|a|..|a| + |b|] == b;
    assert s[|a| + |b|..|a| + |b| + |c|] == c;
  }
}
