/** dnlib's ChunkList: the module writer's ordered list of chunks (each with its alignment) that
    one section lays out. Once the offsets have been assigned the list is frozen. */
module ChunkLists {
  import opened Wrappers

  /** A chunk placed in the list, with the alignment it asked for (a uint). */
  datatype Elem<T> = Elem(chunk: T, alignment: bv32)

  /** The elements a run of `Add` calls appends: the non-null chunks, in call order. */
  function Appended<T>(adds: seq<(Option<T>, bv32)>): (r: seq<Elem<T>>)
    ensures |r| <= |adds|
  {
    if |adds| == 0 then []
    else
      var rest := Appended(adds[1..]);
      if adds[0].0.Some? then [Elem(adds[0].0.value, adds[0].1)] + rest else rest
  }

  /** The list after one `Add` that succeeds. */
  function AfterAdd<T>(chunks: seq<Elem<T>>, chunk: Option<T>, alignment: bv32): seq<Elem<T>>
  {
    if chunk.Some? then chunks + [Elem(chunk.value, alignment)] else chunks
  }

  /** The list after a run of successful `Add` calls, one after the other. */
  function AfterAdds<T>(chunks: seq<Elem<T>>, adds: seq<(Option<T>, bv32)>): seq<Elem<T>>
    decreases |adds|
  {
    if |adds| == 0 then chunks
    else AfterAdds(AfterAdd(chunks, adds[0].0, adds[0].1), adds[1..])
  }

  /** A run of adds keeps what was there and appends exactly the non-null chunks, in order. */
  lemma {:induction false} AfterAddsAppends<T>(chunks: seq<Elem<T>>, adds: seq<(Option<T>, bv32)>)
    ensures AfterAdds(chunks, adds) == chunks + Appended(adds)
    decreases |adds|
  {
    if |adds| > 0 {
      var next := AfterAdd(chunks, adds[0].0, adds[0].1);
      AfterAddsAppends(next, adds[1..]);
      if adds[0].0.Some? {
        assert chunks + [Elem(adds[0].0.value, adds[0].1)] + Appended(adds[1..])
          == chunks + ([Elem(adds[0].0.value, adds[0].1)] + Appended(adds[1..]));
      } else {
        assert Appended(adds) == Appended(adds[1..]);
      }
    }
  }

  /** Adding only null chunks changes nothing. */
  lemma {:induction false} NullAddsKeep<T>(chunks: seq<Elem<T>>, adds: seq<(Option<T>, bv32)>)
    requires forall i :: 0 <= i < |adds| ==> adds[i].0.None?
    ensures AfterAdds(chunks, adds) == chunks
    decreases |adds|
  {
    if |adds| > 0 {
      NullAddsKeep(chunks, adds[1..]);
    }
  }

  class ChunkList<T> {
    /** The chunks, in layout order. */
    var chunks: seq<Elem<T>>
    /** Set by SetOffset (ChunkListBase, not part of this model); it freezes the list. */
    var setOffsetCalled: bool

    /** A new list is empty and not yet laid out. */
    constructor()
      ensures chunks == [] && !setOffsetCalled
    {
      chunks := [];
      setOffsetCalled := false;
    }

    /** Add: refused with InvalidOperationException once the offsets are set; a null chunk is
        ignored; otherwise the chunk goes at the end with its alignment. */
    method Add(chunk: Option<T>, alignment: bv32) returns (r: Result<()>)
      modifies this
      ensures setOffsetCalled == old(setOffsetCalled)
      ensures old(setOffsetCalled) ==> r == Fail(InvalidOperation) && chunks == old(chunks)
      ensures !old(setOffsetCalled) ==> r == Ok(()) && chunks == AfterAdd(old(chunks), chunk, alignment)
      ensures !old(setOffsetCalled) && chunk.Some? ==>
        |chunks| == |old(chunks)| + 1 && chunks[..|old(chunks)|] == old(chunks)
        && chunks[|chunks| - 1] == Elem(chunk.value, alignment)
    {
      if setOffsetCalled {
        return Fail(InvalidOperation);
      }
      if chunk.Some? {
        chunks := chunks + [Elem(chunk.value, alignment)];
      }
      r := Ok(());
    }
  }
}
