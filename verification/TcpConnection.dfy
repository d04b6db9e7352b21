/** The sending side of `TcpConnection`: a list of memory ranges, drained by `writev` as it pleases. */
module TcpConnections {
  import opened Bytes
  import opened Sequences

  /** A `struct iovec`: the bytes are not copied, only referred to. */
  datatype IoVec = IoVec(base: array<byte>, offset: nat, length: nat)

  /** What one `writev` does: takes some bytes, reports that it would block, or fails. */
  datatype WriteResult = Wrote(n: nat) | WouldBlock | Failed

  /** The ranges lie in their arrays and currently hold `pieces`, none of them empty. */
  ghost predicate Backed(vs: seq<IoVec>, pieces: seq<seq<byte>>)
    reads set v | v in vs :: v.base
  {
    && |vs| == |pieces|
    && forall i :: 0 <= i < |vs| ==>
         && vs[i].length > 0
         && vs[i].offset + vs[i].length <= vs[i].base.Length
         && vs[i].base[vs[i].offset..vs[i].offset + vs[i].length] == pieces[i]
  }

  /** No range is empty, so a list that is not empty has bytes behind it. */
  lemma BackedBytes(vs: seq<IoVec>, pieces: seq<seq<byte>>)
    requires Backed(vs, pieces)
    ensures vs == [] <==> Flatten(pieces) == []
  {
    if vs != [] {
      assert |pieces[0]| == vs[0].length;
    }
  }

  /** `v` is part of `u`. */
  predicate Within(v: IoVec, u: IoVec) {
    v.base == u.base && u.offset <= v.offset && v.offset + v.length <= u.offset + u.length
  }

  /** Every range of `vs` is part of one of `us`. */
  ghost predicate PartsOf(vs: seq<IoVec>, us: seq<IoVec>) {
    forall v :: v in vs ==> exists u :: u in us && Within(v, u)
  }

  lemma PartsOfSelf(vs: seq<IoVec>)
    ensures PartsOf(vs, vs)
  {
    forall v | v in vs ensures exists u :: u in vs && Within(v, u) {
      assert Within(v, v);
    }
  }

  ghost function BasesOf(vs: seq<IoVec>): set<array<byte>> {
    set v | v in vs :: v.base
  }

  /** Parts lie in the same arrays. */
  lemma PartsKeepBases(vs: seq<IoVec>, us: seq<IoVec>, bases: set<array<byte>>)
    requires PartsOf(vs, us) && forall u :: u in us ==> u.base in bases
    ensures forall v :: v in vs ==> v.base in bases
  {
  }

  lemma TrimmedPartsOf(vs: seq<IoVec>, front: IoVec)
    requires vs != [] && Within(front, vs[0])
    ensures PartsOf(vs[0 := front], vs)
  {
    var us := vs[0 := front];
    forall v | v in us ensures exists u :: u in vs && Within(v, u) {
      assert v == front || v in vs;
      assert Within(v, v);
      assert vs[0] in vs;
    }
  }

  lemma TailPartsOf(vs: seq<IoVec>)
    requires vs != []
    ensures PartsOf(vs[1..], vs)
  {
    forall v | v in vs[1..] ensures exists u :: u in vs && Within(v, u) {
      assert Within(v, v);
    }
  }

  lemma FlattenTrim(pieces: seq<seq<byte>>, n: nat)
    requires pieces != [] && n <= |pieces[0]|
    ensures Flatten(pieces[0 := pieces[0][n..]]) == Flatten(pieces)[n..]
  {
    assert pieces[0 := pieces[0][n..]][1..] == pieces[1..];
  }

  lemma BackedAppend(vs: seq<IoVec>, pieces: seq<seq<byte>>, us: seq<IoVec>, more: seq<seq<byte>>)
    requires Backed(vs, pieces) && Backed(us, more)
    ensures Backed(vs + us, pieces + more)
  {
  }

  lemma BackedLength(vs: seq<IoVec>, pieces: seq<seq<byte>>)
    requires Backed(vs, pieces)
    ensures |vs| == |pieces|
  {
  }

  lemma NonEmpty(pieces: seq<seq<byte>>)
    ensures |Flatten(pieces)| > 0 ==> pieces != []
    ensures pieces == [] ==> Flatten(pieces) == []
  {
  }

  lemma PartsOfParts(vs: seq<IoVec>, us: seq<IoVec>, ws: seq<IoVec>)
    requires PartsOf(vs, us) && PartsOf(us, ws)
    ensures PartsOf(vs, ws)
  {
    forall v | v in vs ensures exists w :: w in ws && Within(v, w) {
      var u :| u in us && Within(v, u);
      var w :| w in ws && Within(u, w);
      assert Within(v, w);
    }
  }

  /** The bytes that successive `writev` calls accept before one blocks or fails. */
  function BytesAccepted(results: seq<WriteResult>): nat {
    if |results| == 0 || !results[0].Wrote? then 0 else results[0].n + BytesAccepted(results[1..])
  }

  /** The first call that accepts nothing fails, other than because it would block. */
  predicate Fails(results: seq<WriteResult>) {
    |results| > 0 && (results[0].Failed? || (results[0].Wrote? && Fails(results[1..])))
  }

  lemma TakeMore<T>(all: seq<T>, m: nat, n: nat)
    requires m + n <= |all|
    ensures all[..m] + all[m..][..n] == all[..m + n] && all[m..][n..] == all[m + n..]
    ensures all[..m] + all[m..] == all
  {
  }

  class TcpConnection {
    var closed: bool
    var writing: bool
    var ioVecs: seq<IoVec>
    /** Everything the kernel has accepted. */
    var wire: seq<byte>
    /** The bytes behind `ioVecs`. */
    ghost var pending: seq<seq<byte>>

    ghost predicate Valid()
      reads this, set v | v in ioVecs :: v.base
    {
      Backed(ioVecs, pending) && (!closed ==> (writing <==> ioVecs != []))
    }

    /** The whole stream: accepted bytes, then the bytes still to go. */
    ghost function Stream(): seq<byte>
      reads this
    {
      wire + Flatten(pending)
    }

    constructor ()
      ensures Valid() && !closed && ioVecs == [] && pending == [] && wire == []
    {
      closed, writing, ioVecs, wire := false, false, [], [];
      pending := [];
    }

    method SendInLoop(list: seq<IoVec>, ghost pieces: seq<seq<byte>>)
      requires Valid() && Backed(list, pieces)
      modifies this
      ensures Valid() && closed == old(closed) && wire == old(wire)
      ensures closed ==> unchanged(this)
      ensures !closed ==> ioVecs == old(ioVecs) + list && pending == old(pending) + pieces
      ensures !closed && old(ioVecs) == [] ==> ioVecs == list && pending == pieces
    {
      if closed {
        return;
      }
      BackedAppend(ioVecs, pending, list, pieces);
      BackedLength(ioVecs, pending);
      hide Backed;
      PushAll(list);
      pending := pending + pieces;
      if ioVecs != [] {
        writing := true;
      }
    }

    /**
      `SendInLoop` for one block of memory: with nothing queued, `write` takes `accepted` bytes at once,
      and what it leaves is queued. Returns whether the write-complete callback is called.
     */
    method SendBlock(v: IoVec, accepted: nat) returns (complete: bool)
      requires Valid() && v.offset + v.length <= v.base.Length
      modifies this
      ensures Valid() && closed == old(closed)
      ensures closed ==> unchanged(this) && !complete
      ensures !closed ==>
        var sent := if old(ioVecs) == [] then Min(accepted, v.length) else 0;
        && wire == old(wire) + v.base[v.offset..v.offset + sent]
        && Flatten(pending) == old(Flatten(pending)) + v.base[v.offset + sent..v.offset + v.length]
      ensures complete <==> !closed && old(ioVecs) == [] && accepted >= v.length
      ensures complete ==> ioVecs == [] && pending == []
      ensures forall u :: u in ioVecs ==> u in old(ioVecs) || u.base == v.base
    {
      hide Flatten;
      complete := false;
      if closed {
        return;
      }
      if ioVecs != [] {
        Enqueue(v);
        return;
      }
      var sent := Min(accepted, v.length);
      NonEmpty(pending);
      wire := wire + v.base[v.offset..v.offset + sent];
      if sent == v.length {
        complete := true;
        return;
      }
      Enqueue(IoVec(v.base, v.offset + sent, v.length - sent));
    }

    /** Queues a range if it is not empty, and asks for a call when the socket becomes writable. */
    method Enqueue(v: IoVec)
      requires Valid() && v.offset + v.length <= v.base.Length
      modifies this`ioVecs, this`pending, this`writing
      ensures Valid() && Flatten(pending) == old(Flatten(pending)) + v.base[v.offset..v.offset + v.length]
      ensures ioVecs == old(ioVecs) + if v.length > 0 then [v] else []
    {
      hide Flatten;
      if v.length > 0 {
        FlattenSnoc(pending, v.base[v.offset..v.offset + v.length]);
        ioVecs := ioVecs + [v];
        pending := pending + [v.base[v.offset..v.offset + v.length]];
        writing := true;
      }
    }

    method PushAll(list: seq<IoVec>)
      modifies `ioVecs
      ensures ioVecs == old(ioVecs) + list
    {
      for i := 0 to |list|
        invariant ioVecs == old(ioVecs) + list[..i]
      {
        ioVecs := ioVecs + [list[i]];
      }
    }

    /** The bytes the kernel is offered, read from memory at the time of the call. */
    method Gather() returns (data: seq<byte>)
      requires Backed(ioVecs, pending)
      ensures data == Flatten(pending)
    {
      data := [];
      for i := 0 to |ioVecs|
        invariant data == Flatten(pending[..i])
      {
        var v := ioVecs[i];
        data := data + v.base[v.offset..v.offset + v.length];
        FlattenSnoc(pending[..i], pending[i]);
        assert pending[..i + 1] == pending[..i] + [pending[i]];
      }
      assert pending[..|pending|] == pending;
    }

    /** The first range has gone out completely. */
    method DropFront()
      requires Backed(ioVecs, pending) && ioVecs != []
      modifies this`ioVecs, this`pending
      ensures Backed(ioVecs, pending) && ioVecs == old(ioVecs)[1..]
      ensures old(Flatten(pending)) == old(pending[0]) + Flatten(pending)
    {
      ioVecs := ioVecs[1..];
      pending := pending[1..];
    }

    /** Only `n` bytes of the first range have gone out. */
    method TrimFront(n: nat)
      requires Backed(ioVecs, pending) && ioVecs != [] && 0 < n < ioVecs[0].length
      modifies this`ioVecs, this`pending
      ensures Backed(ioVecs, pending) && Flatten(pending) == old(Flatten(pending))[n..]
      ensures PartsOf(ioVecs, old(ioVecs))
    {
      hide PartsOf, Flatten;
      var front := ioVecs[0];
      var rest := IoVec(front.base, front.offset + n, front.length - n);
      TrimmedPartsOf(ioVecs, rest);
      FlattenTrim(pending, n);
      ioVecs := ioVecs[0 := rest];
      pending := pending[0 := pending[0][n..]];
      assert front.base[rest.offset..rest.offset + rest.length] == pending[0];
    }

    /** Drops the first `n` bytes from the list: whole ranges, then the front of one. */
    method Consume(n: nat)
      requires Backed(ioVecs, pending) && n <= |Flatten(pending)|
      modifies this`ioVecs, this`pending
      ensures Backed(ioVecs, pending) && Flatten(pending) == old(Flatten(pending))[n..]
      ensures PartsOf(ioVecs, old(ioVecs))
    {
      hide PartsOf, Flatten;
      var ret: nat := n;
      PartsOfSelf(ioVecs);
      while ret > 0
        invariant Backed(ioVecs, pending) && ret <= |Flatten(pending)|
        invariant Flatten(pending)[ret..] == old(Flatten(pending))[n..]
        invariant PartsOf(ioVecs, old(ioVecs))
        decreases ret
      {
        NonEmpty(pending);
        ghost var vs := ioVecs;
        if ioVecs[0].length > ret {
          TrimFront(ret);
          ret := 0;
        } else {
          ret := ret - ioVecs[0].length;
          DropFront();
          TailPartsOf(vs);
        }
        PartsOfParts(ioVecs, vs, old(ioVecs));
      }
      assert Flatten(pending)[0..] == Flatten(pending);
    }

    /** One successful `writev`. */
    method WriteSome(n: nat)
      requires Backed(ioVecs, pending)
      modifies this`ioVecs, this`pending, this`wire
      ensures Backed(ioVecs, pending) && PartsOf(ioVecs, old(ioVecs))
      ensures
        var all := old(Flatten(pending));
        wire == old(wire) + all[..Min(n, |all|)] && Flatten(pending) == all[Min(n, |all|)..]
    {
      var offered := Gather();
      var ret := Min(n, |offered|);
      assert offered == offered[..ret] + offered[ret..];
      wire := wire + offered[..ret];
      Consume(ret);
    }

    /** The same behind the first `done` of `all` bytes. */
    method WriteMore(n: nat, ghost was: seq<byte>, ghost all: seq<byte>, ghost done: nat)
      requires Backed(ioVecs, pending)
      requires done <= |all| && wire == was + all[..done] && Flatten(pending) == all[done..]
      modifies this`ioVecs, this`pending, this`wire
      ensures Backed(ioVecs, pending) && PartsOf(ioVecs, old(ioVecs))
      ensures
        var more := Min(done + n, |all|);
        && wire == was + all[..more] && Flatten(pending) == all[more..]
        && (ioVecs == [] <==> more == |all|) && (ioVecs == [] ==> pending == [] && wire == was + all)
        && Stream() == was + all
    {
      hide PartsOf, Flatten, Backed;
      TakeMore(all, done, Min(n, |all| - done));
      Assoc3(was, all[..done], all[done..][..Min(n, |all| - done)]);
      WriteSome(n);
      BackedBytes(ioVecs, pending);
      BackedLength(ioVecs, pending);
      TakeMore(all, Min(done + n, |all|), 0);
      Assoc3(was, all[..Min(done + n, |all|)], all[Min(done + n, |all|)..]);
      assert all[..|all|] == all;
    }

    method OnClose()
      requires Backed(ioVecs, pending)
      modifies this`closed
      ensures Backed(ioVecs, pending) && closed
    {
      closed := true;
    }

    /**
      The socket is writable; `results` is what successive `writev` calls do. Returns whether the list
      ran empty, which is when the write-complete callback is called.
     */
    method OnWrite(results: seq<WriteResult>) returns (complete: bool)
      requires Valid()
      modifies this
      ensures Valid() && Stream() == old(Stream()) && old(wire) <= wire
      ensures PartsOf(ioVecs, old(ioVecs))
      ensures !old(closed) && old(ioVecs) != [] ==>
        var all, n := old(Flatten(pending)), BytesAccepted(results);
        && wire == old(wire) + all[..Min(n, |all|)]
        && (complete <==> n >= |all|)
        && (closed <==> n < |all| && Fails(results))
      ensures complete ==> !closed && ioVecs == [] && pending == [] && wire == old(Stream())
      ensures old(closed) || old(ioVecs) == [] ==> unchanged(this) && !complete
      ensures !complete && old(ioVecs) != [] ==> ioVecs != []
    {
      hide PartsOf, Flatten, Backed;
      complete := false;
      PartsOfSelf(ioVecs);
      if closed || ioVecs == [] {
        return;
      }
      ghost var all := Flatten(pending);
      ghost var done: nat := 0;
      BackedBytes(ioVecs, pending);
      assert results[0..] == results;
      for k := 0 to |results|
        invariant Backed(ioVecs, pending) && !closed && writing && ioVecs != []
        invariant Stream() == old(Stream()) && done < |all|
        invariant wire == old(wire) + all[..done] && Flatten(pending) == all[done..]
        invariant done + BytesAccepted(results[k..]) == BytesAccepted(results) && Fails(results[k..]) == Fails(results)
        invariant PartsOf(ioVecs, old(ioVecs))
      {
        assert results[k..][1..] == results[k + 1..];
        match results[k]
        case Wrote(n) =>
          ghost var vs := ioVecs;
          WriteMore(n, old(wire), all, done);
          PartsOfParts(ioVecs, vs, old(ioVecs));
          done := Min(done + n, |all|);
          if ioVecs == [] {
            writing := false;
            complete := true;
            return;
          }
        case WouldBlock =>
          return;
        case Failed =>
          OnClose();
          return;
      }
    }
  }
}
