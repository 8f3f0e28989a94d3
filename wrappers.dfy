/** Option and Result values, and the Python exceptions the modelled code lets escape. */
module Wrappers {

  datatype Option<+T> = None | Some(value: T)

  /** The exceptions that end a run of the scripts: nothing in the modelled code catches them. */
  datatype PyError =
    | ValueError          // int(token, 16) on a token that is not a hexadecimal literal
    | IndexError          // a list index past the end of a split line
    | CalledProcessError  // subprocess.check_output on a command that failed
    | SocketError         // socket.inet_aton on text that is not an IPv4 address

  /** The outcome of an operation that either returns or raises. */
  datatype Result<+T> = Ok(value: T) | Err(error: PyError)

  /**
   * A list of outcomes taken in order, as a loop that raises on the first failing
   * element: the values when every element succeeds, else the first error.
   */
  function Collect<T>(rs: seq<Result<T>>): Result<seq<T>>
    decreases |rs|
  {
    if rs == [] then Ok([])
    else
      var n := |rs| - 1;
      match Collect(rs[..n])
      case Err(e) => Err(e)
      case Ok(done) =>
        match rs[n]
        case Err(e) => Err(e)
        case Ok(v) => Ok(done + [v])
  }

  lemma CollectSnoc<T>(rs: seq<Result<T>>, r: Result<T>)
    ensures Collect(rs + [r]) ==
      match Collect(rs)
      case Err(e) => Err(e)
      case Ok(done) =>
        match r
        case Err(e) => Err(e)
        case Ok(v) => Ok(done + [v])
  {
    assert (rs + [r])[..|rs|] == rs;
  }

  /** Collecting succeeds exactly when every element does, and then keeps every value in order. */
  lemma {:induction false} CollectOk<T>(rs: seq<Result<T>>)
    ensures Collect(rs).Ok? <==> forall i :: 0 <= i < |rs| ==> rs[i].Ok?
    ensures Collect(rs).Ok? ==>
      (|Collect(rs).value| == |rs| && forall i :: 0 <= i < |rs| ==> Ok(Collect(rs).value[i]) == rs[i])
    decreases |rs|
  {
    if rs != [] {
      var n := |rs| - 1;
      var before := rs[..n];
      assert forall i :: 0 <= i < n ==> before[i] == rs[i];
      CollectOk(before);
    }
  }

  /** A failed collection carries the error of the first failing element. */
  lemma {:induction false} CollectErr<T>(rs: seq<Result<T>>)
    ensures Collect(rs).Err? ==>
      exists i :: 0 <= i < |rs| && rs[i] == Err(Collect(rs).error) && forall j :: 0 <= j < i ==> rs[j].Ok?
    decreases |rs|
  {
    if rs != [] {
      var n := |rs| - 1;
      var before := rs[..n];
      assert forall i :: 0 <= i < n ==> before[i] == rs[i];
      CollectErr(before);
      CollectOk(before);
      if Collect(before).Err? {
        var i :| 0 <= i < n && before[i] == Err(Collect(before).error) && forall j :: 0 <= j < i ==> before[j].Ok?;
        assert rs[i] == before[i];
      } else if Collect(rs).Err? {
        assert rs[n] == Err(Collect(rs).error);
      }
    }
  }

  /** Once a prefix fails, the whole fails with the same error. */
  lemma {:induction false} CollectPrefixErr<T>(rs: seq<Result<T>>, k: nat)
    requires k <= |rs| && Collect(rs[..k]).Err?
    ensures Collect(rs) == Collect(rs[..k])
    decreases |rs| - k
  {
    if k < |rs| {
      CollectSnoc(rs[..k], rs[k]);
      assert rs[..k + 1] == rs[..k] + [rs[k]];
      CollectPrefixErr(rs, k + 1);
    } else {
      assert rs[..k] == rs;
    }
  }

  /** The values read so far, and the error that stopped the reading, if any. */
  datatype Partial<+T> = Partial(values: seq<T>, error: Option<PyError>)

  /**
   * A loop that reads each element in turn and keeps what it read, so that a raise
   * leaves the values read before it in place: those values, in order, and the error.
   */
  function ReadAll<T, U>(xs: seq<T>, read: T -> Result<U>): Partial<U>
    decreases |xs|
  {
    if xs == [] then Partial([], None)
    else
      var n := |xs| - 1;
      var p := ReadAll(xs[..n], read);
      if p.error.Some? then p
      else
        match read(xs[n])
        case Ok(v) => Partial(p.values + [v], None)
        case Err(e) => Partial(p.values, Some(e))
  }

  lemma ReadAllSnoc<T, U>(xs: seq<T>, x: T, read: T -> Result<U>)
    ensures ReadAll(xs + [x], read)
         == var p := ReadAll(xs, read);
            if p.error.Some? then p
            else match read(x)
              case Ok(v) => Partial(p.values + [v], None)
              case Err(e) => Partial(p.values, Some(e))
  {
    assert (xs + [x])[..|xs|] == xs;
  }

  /**
   * What the loop keeps: the elements read, in order; all of them when none raises,
   * and otherwise those before the first that raises, whose error it reports.
   */
  lemma {:induction false} ReadAllShape<T, U>(xs: seq<T>, read: T -> Result<U>)
    ensures |ReadAll(xs, read).values| <= |xs|
    ensures forall i :: 0 <= i < |ReadAll(xs, read).values| ==> read(xs[i]) == Ok(ReadAll(xs, read).values[i])
    ensures ReadAll(xs, read).error.None? <==> |ReadAll(xs, read).values| == |xs|
    ensures ReadAll(xs, read).error.Some? ==>
      read(xs[|ReadAll(xs, read).values|]) == Err(ReadAll(xs, read).error.value)
    decreases |xs|
  {
    if xs != [] {
      var n := |xs| - 1;
      var before, x := xs[..n], xs[n];
      assert xs == before + [x];
      ReadAllShape(before, read);
      ReadAllSnoc(before, x, read);
      var p := ReadAll(before, read);
      if p.error.None? {
        forall i | 0 <= i < |ReadAll(xs, read).values|
          ensures read(xs[i]) == Ok(ReadAll(xs, read).values[i])
        {
          if i < n {
            assert xs[i] == before[i];
          }
        }
      } else {
        assert xs[|p.values|] == before[|p.values|];
      }
    }
  }

  /** After an element has raised, the later elements are not read. */
  lemma {:induction false} ReadAllStops<T, U>(xs: seq<T>, k: nat, read: T -> Result<U>)
    requires k <= |xs|
    requires ReadAll(xs[..k], read).error.Some?
    ensures ReadAll(xs, read) == ReadAll(xs[..k], read)
    decreases |xs| - k
  {
    if k < |xs| {
      var n := |xs| - 1;
      assert xs[..n][..k] == xs[..k];
      ReadAllStops(xs[..n], k, read);
      ReadAllSnoc(xs[..n], xs[n], read);
      assert xs == xs[..n] + [xs[n]];
    } else {
      assert xs[..k] == xs;
    }
  }

  /** One turn of the loop, from a state without error. */
  lemma ReadStep<T, U>(xs: seq<T>, k: nat, read: T -> Result<U>)
    requires k < |xs| && ReadAll(xs[..k], read).error.None?
    ensures read(xs[k]).Ok? ==> ReadAll(xs[..k + 1], read) == Partial(ReadAll(xs[..k], read).values + [read(xs[k]).value], None)
    ensures read(xs[k]).Err? ==> ReadAll(xs, read) == Partial(ReadAll(xs[..k], read).values, Some(read(xs[k]).error))
  {
    ReadAllSnoc(xs[..k], xs[k], read);
    assert xs[..k + 1] == xs[..k] + [xs[k]];
    if read(xs[k]).Err? {
      ReadAllStops(xs, k + 1, read);
    }
  }
}
