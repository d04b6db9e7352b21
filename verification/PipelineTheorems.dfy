/** What the send pipeline guarantees end to end, and when its header arena suffices. */
module PipelineTheorems {
  import opened Bytes
  import opened ChunkWriter
  import opened HeaderArena
  import opened SendPipelines
  import opened Sequences
  import ChunkParser
  import ChunkTheorems
  import RoundTrip

  // ---------------------------------------------------------------------------------------------
  // When the header arena suffices
  // ---------------------------------------------------------------------------------------------

  /** Messages of at most 56 chunks never exhaust the arena, however they are batched. */
  lemma SmallMessagesFit(jobs: seq<Job>, c: nat)
    requires c > 0 && forall j :: j in jobs ==> |j.msg.body| <= 56 * c
    ensures BatchesFit(jobs, c)
  {
    forall i, k | 0 <= i <= k <= |jobs| && k - i <= BATCH ensures TotalWorst(jobs[i..k], c) <= ARENA_SIZE {
      SmallTotal(jobs[i..k], c);
    }
  }

  lemma {:induction false} SmallTotal(jobs: seq<Job>, c: nat)
    requires c > 0 && forall j :: j in jobs ==> |j.msg.body| <= 56 * c
    ensures TotalWorst(jobs, c) <= 403 * |jobs|
  {
    if |jobs| > 0 {
      SmallTotal(jobs[..|jobs| - 1], c);
      SmallWorst(|jobs[|jobs| - 1].msg.body|, 56, c);
    }
  }

  lemma {:induction false} SmallWorst(n: nat, chunks: nat, c: nat)
    requires c > 0 && chunks > 0 && n <= chunks * c
    ensures NextBytes(n, c, 7) <= 7 * (chunks - 1)
    decreases chunks
  {
    if n > c {
      assert n - c <= (chunks - 1) * c;
      SmallWorst(n - c, chunks - 1, c);
    }
  }

  /** The most arena that a message of one chunk takes. */
  const ONE_CHUNK: nat := 18

  /**
    Whatever ten consecutive messages end up in a batch, their headers fit, and where there are fewer than
    ten, there is still room for a message of one chunk in each place left.
   */
  ghost predicate Roomy(jobs: seq<Job>, c: nat)
    requires c > 0
  {
    forall i, k :: 0 <= i <= k <= |jobs| && k - i <= BATCH ==>
      TotalWorst(jobs[i..k], c) + ONE_CHUNK * (BATCH - (k - i)) <= ARENA_SIZE
  }

  lemma RoomyFits(jobs: seq<Job>, c: nat)
    requires c > 0 && Roomy(jobs, c)
    ensures BatchesFit(jobs, c)
  {
    hide TotalWorst;
  }

  lemma RoomyTail(jobs: seq<Job>, n: nat, c: nat)
    requires c > 0 && n <= |jobs| && Roomy(jobs, c)
    ensures Roomy(jobs[n..], c)
  {
    hide TotalWorst;
    var rest := jobs[n..];
    forall i, k | 0 <= i <= k <= |rest| && k - i <= BATCH
      ensures TotalWorst(rest[i..k], c) + ONE_CHUNK * (BATCH - (k - i)) <= ARENA_SIZE
    {
      assert rest[i..k] == jobs[n + i..n + k];
    }
  }

  /** A message of one chunk can always be queued. */
  lemma RoomForOne(jobs: seq<Job>, j: Job, c: nat)
    requires c > 0 && Roomy(jobs, c) && |j.msg.body| <= c
    ensures Roomy(jobs + [j], c)
  {
    var more := jobs + [j];
    forall i, k | 0 <= i <= k <= |more| && k - i <= BATCH
      ensures TotalWorst(more[i..k], c) + ONE_CHUNK * (BATCH - (k - i)) <= ARENA_SIZE
    {
      if k == |more| && i < k {
        assert more[i..k][..k - i - 1] == jobs[i..k - 1] && more[i..k][k - i - 1] == j;
        assert WorstCase(j, c) == ONE_CHUNK;
        hide TotalWorst, WorstCase;
        WindowGrows(more[i..k], jobs[i..k - 1], j, c);
      } else if k == |more| {
        assert more[i..k] == [] && jobs[0..0] == [];
      } else {
        assert more[i..k] == jobs[i..k];
      }
    }
  }

  lemma WindowGrows(window: seq<Job>, before: seq<Job>, j: Job, c: nat)
    requires c > 0 && |window| == |before| + 1 && window[..|before|] == before && window[|before|] == j
    ensures TotalWorst(window, c) == TotalWorst(before, c) + WorstCase(j, c)
  {
  }

  /** Messages of at most 56 chunks leave that room. */
  lemma SmallMessagesRoomy(jobs: seq<Job>, c: nat)
    requires c > 0 && forall j :: j in jobs ==> |j.msg.body| <= 56 * c
    ensures Roomy(jobs, c)
  {
    hide TotalWorst;
    forall i, k | 0 <= i <= k <= |jobs| && k - i <= BATCH
      ensures TotalWorst(jobs[i..k], c) + ONE_CHUNK * (BATCH - (k - i)) <= ARENA_SIZE
    {
      SmallTotal(jobs[i..k], c);
    }
  }

  /** A single message among acknowledgements may have up to 560 chunks, more than two megabytes. */
  lemma LargeMessageRoomy(j: Job, c: nat)
    requires c > 0 && |j.msg.body| <= 560 * c
    ensures Roomy([j], c)
  {
    var jobs := [j];
    SmallWorst(|j.msg.body|, 560, c);
    forall i, k | 0 <= i <= k <= |jobs| && k - i <= BATCH
      ensures TotalWorst(jobs[i..k], c) + ONE_CHUNK * (BATCH - (k - i)) <= ARENA_SIZE
    {
      if i < k {
        assert jobs[i..k] == jobs && jobs[..0] == [];
      } else {
        assert jobs[i..k] == [];
      }
    }
  }

  /**
    The 24-bit length field allows messages that the arena does not: the longest one is cut short,
    unless its first header is the single byte of a repeat.
   */
  lemma LongestMessage(o: OutLane, j: Job)
    requires |j.msg.body| == 0xFF_FFFF
    ensures Headers(0, o, j, 4096).Room? <==> |FirstHeader(o, j)| == 1
  {
    var h := |NextHeader(j.msg.csid, Field(o, j))|;
    NextBytesClosed(0xFF_FFFF, 4096, 1);
    NextBytesMonotone(0xFF_FFFF, 4096, 1, h);
    ArenaIff(0, o, j, 4096);
  }

  // ---------------------------------------------------------------------------------------------
  // Delivery
  // ---------------------------------------------------------------------------------------------

  /** What one packet of the pipeline must satisfy for the codec to carry it. */
  predicate Carried(j: Job) {
    !j.fmt0 && j.msg.timestamp == 0 && RoundTrip.CsidInRange(j.msg.csid) && 0 < |j.msg.body| < 0x100_0000
  }

  /** Every packet leaves with timestamp zero, so no timestamp field can reach the extended form. */
  lemma {:induction false} PipelineInScope(out: map<uint32, OutLane>, jobs: seq<Job>)
    requires forall j :: j in jobs ==> Carried(j)
    ensures ChunkTheorems.EachInScope(out, jobs)
    decreases |jobs|
  {
    if |jobs| != 0 {
      assert Carried(jobs[0]);
      PipelineInScope(After(out, jobs[0]), jobs[1..]);
    }
  }

  /**
    A session that begins with the receiver at its 128 bytes and the sender at `c`: what it sends
    before announcing `c` must fit in 128 bytes, and afterwards the two agree.
   */
  lemma GreetedInScope(before: seq<Job>, after: seq<Job>, c: nat)
    requires 128 <= c < 0x8000_0000
    requires forall j :: j in before + [ChunkTheorems.SetChunkSize(c)] + after ==> Carried(j)
    requires ChunkTheorems.Short(before, 128) && ChunkTheorems.AnnouncesOnly(after, c)
    ensures RoundTrip.RunInScope(map[], before + [ChunkTheorems.SetChunkSize(c)] + after, 128, c)
  {
    PipelineInScope(map[], before + [ChunkTheorems.SetChunkSize(c)] + after);
    ChunkTheorems.ChunkSizeSwitch(map[], before, after, 128, c);
  }

  /**
    At any moment, a receiver that has read any part of what followed the connection's earlier bytes,
    however fragmented, has completed a prefix of what was built; and once the connection has run dry,
    everything ever queued has been written, and arrives.
   */
  lemma PipelineDelivers(s: RtmpSender, st: ChunkParser.InState, pieces: seq<seq<byte>>)
    requires s.Valid() && RoundTrip.RunInScope(map[], s.sent, st.chunkSize, s.outChunkSize)
    requires RoundTrip.AllSynced(map[], st.lanes)
    requires s.opening + Flatten(pieces) <= s.connection.wire
    ensures
      var r := ChunkParser.FeedAll(ChunkParser.Outcome(st, [], []), pieces);
      && r.msgs <= RoundTrip.Messages(s.sent)
      && (RunDry(s) ==> s.queued == [] && s.connection.wire == s.Image())
      && (RunDry(s) && s.opening + Flatten(pieces) == s.connection.wire ==>
          r.msgs == RoundTrip.Messages(s.sent) && r.rest == [])
  {
    var c := s.outChunkSize;
    WireBounds(s);
    RoundTrip.RunIsSized(map[], s.sent, st.chunkSize, c);
    hide EncodeAll;
    Behind(s.opening, Flatten(pieces), EncodeAll(map[], s.sent, c));
    ChunkTheorems.EndToEnd(st, map[], s.sent, c, pieces);
  }

  /** The socket has taken everything, and the connection is still open. */
  predicate RunDry(s: RtmpSender)
    reads s, s.connection
  {
    !s.connection.closed && s.connection.ioVecs == []
  }

  lemma Behind(a: seq<byte>, b: seq<byte>, c: seq<byte>)
    requires a + b <= a + c
    ensures b <= c && (a + b == a + c ==> b == c)
  {
    assert forall i :: 0 <= i < |b| ==> b[i] == (a + b)[|a| + i] == (a + c)[|a| + i] == c[i];
  }

  lemma WireBounds(s: RtmpSender)
    requires s.Valid()
    ensures s.connection.wire <= s.Image()
    ensures RunDry(s) ==> s.queued == [] && s.connection.wire == s.Image()
  {
    hide EncodeAll;
    if !s.connection.closed {
      assert s.connection.wire <= s.connection.Stream();
    }
    if RunDry(s) {
      assert s.connection.Stream() == s.connection.wire;
    }
  }
}
