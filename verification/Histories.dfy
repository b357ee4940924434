/** Final ACKs over whole histories of one receiver process, with any transaction ids. */
module Histories {
  import opened Bytes
  import opened Ranges
  import opened Wire
  import opened Slots
  import opened JournalCodec
  import opened Storage
  import opened Journals
  import opened ReceiverModel
  import opened Resting

  /** What can be observed of a process: a transfer begins, or comes to its end with a file that passes its
      checksum or with one that does not. */
  datatype Occurrence = Began(tid: u32) | Completed(tid: u32) | Discarded(tid: u32)

  function Ending(w: World, crc32: seq<byte> -> u32): Occurrence
  {
    if FileCrc(crc32, w.t.env.file) == w.r.st.checksum then Completed(w.r.st.tid) else Discarded(w.r.st.tid)
  }

  /** What the step from `before` to `after` shows. */
  function Observed(before: Recv, after: World, crc32: seq<byte> -> u32): seq<Occurrence>
  {
    if after.r.active && (!before.active || before.st.tid != after.r.st.tid) then [Began(after.r.st.tid)]
    else if before.active && !after.r.active then [Ending(after, crc32)]
    else []
  }

  /** What booting shows: a transfer found in the journal begins again, and may end at once. */
  function BootObserved(w: World, crc32: seq<byte> -> u32): seq<Occurrence>
    requires w.r.Ok() && (LoadedFrom(w.t.env).Some? ==> Sane(LoadedFrom(w.t.env).value))
  {
    match LoadedFrom(w.t.env)
    case None => []
    case Some(st) =>
      var booted := Booted(w, crc32);
      if booted.r.active then [Began(st.tid)] else [Began(st.tid), Ending(booted, crc32)]
  }

  function Last(h: seq<Occurrence>): Occurrence
    requires h != []
  {
    h[|h| - 1]
  }

  /** No transfer is running. */
  predicate Quiet(h: seq<Occurrence>) { h == [] || !Last(h).Began? }

  /** The id of the latest completed transfer; 0 if there is none. */
  function LastCompleted(h: seq<Occurrence>): u32
  {
    if h == [] then 0
    else if Last(h).Completed? then Last(h).tid
    else LastCompleted(h[..|h| - 1])
  }

  /** The receiver's memory of its history: whether a transfer runs, the latest id, the latest completed id. */
  predicate Remembers(w: World, h: seq<Occurrence>)
  {
    && (w.r.active <==> !Quiet(h))
    && (h != [] ==> w.r.st.tid == Last(h).tid)
    && w.r.lastAcked == LastCompleted(h)
  }

  lemma LastCompletedSnoc(h: seq<Occurrence>, o: Occurrence)
    ensures LastCompleted(h + [o]) == if o.Completed? then o.tid else LastCompleted(h)
  {
    assert (h + [o])[..|h|] == h;
  }

  // ----- how each handler ends a transfer

  /** The transfer goes on, or it ends as observed. */
  predicate EndsAsObserved(w: World, w': World, crc32: seq<byte> -> u32)
  {
    && w'.r.st.tid == w.r.st.tid && (w'.r.active ==> w.r.active)
    && (if w.r.active && !w'.r.active && Ending(w', crc32).Completed? then w'.r.lastAcked == w.r.st.tid
        else w'.r.lastAcked == w.r.lastAcked)
  }

  lemma CompletionObserved(w: World, crc32: seq<byte> -> u32)
    requires w.r.Ok() && Sane(w.r.st) && w.r.active
    ensures EndsAsObserved(w, CompletionChecked(w, crc32), crc32)
  {
  }

  lemma FlushedObserved(w: World, c: u32, crc32: seq<byte> -> u32)
    requires w.r.Ok() && Sane(w.r.st) && w.r.active && c < w.r.st.totalChunks
    ensures EndsAsObserved(w, Flushed(w, c, crc32), crc32)
  {
    var t := Allocated(w.t, w.r.st.fileSize);
    if t.env.file.Some? {
      var idle := Idled(Acked(ChunkStored(w.(t := t), c), c));
      if idle.r.st.eof {
        CompletionObserved(idle, crc32);
      }
    }
  }

  lemma DataObserved(w: World, d: Data, crc32: seq<byte> -> u32)
    requires w.r.Ok()
    ensures EndsAsObserved(w, DataHandled(w, d, crc32), crc32)
  {
    if Accepts(w.r, d) && !w.r.st.done[d.chunk] {
      var stored := PacketStored(Opened(Seen(w, d.chunk), d), d);
      if Complete(stored.r.slots) {
        FlushedObserved(stored, d.chunk, crc32);
      }
    }
  }

  lemma EofObserved(w: World, tid: u32, crc32: seq<byte> -> u32)
    requires w.r.Ok()
    ensures EndsAsObserved(w, EofHandled(w, tid, crc32), crc32)
  {
    if w.r.active && tid == w.r.st.tid {
      CompletionObserved(MarkedEof(w), crc32);
    }
  }

  // ----- the history is remembered

  lemma EndingRemembered(w: World, w': World, h: seq<Occurrence>, crc32: seq<byte> -> u32)
    requires Remembers(w, h) && EndsAsObserved(w, w', crc32)
    ensures Remembers(w', h + Observed(w.r, w', crc32))
  {
    if w.r.active && !w'.r.active {
      LastCompletedSnoc(h, Ending(w', crc32));
    } else {
      assert h + [] == h;
    }
  }

  lemma MetadataRemembered(w: World, m: Metadata, h: seq<Occurrence>, dest: seq<byte>, crc32: seq<byte> -> u32)
    requires Remembers(w, h) && w.r.Ok() && |dest| == PATH_BYTES
    ensures var w' := MetadataHandled(w, m, dest);
            Remembers(w', h + Observed(w.r, w', crc32))
  {
    LastCompletedSnoc(h, Began(m.tid));
    assert h + [] == h;
  }

  /** Every PDU keeps the memory true. */
  lemma HandledRemembered(w: World, pdu: Pdu, h: seq<Occurrence>, dest: seq<byte>, crc32: seq<byte> -> u32)
    requires Remembers(w, h) && w.r.Ok() && |dest| == PATH_BYTES
    ensures var w' := Handled(w, pdu, dest, crc32);
            Remembers(w', h + Observed(w.r, w', crc32))
  {
    match pdu
    case MetadataPdu(m) => MetadataRemembered(w, m, h, dest, crc32);
    case DataPdu(d) =>
      DataObserved(w, d, crc32);
      EndingRemembered(w, DataHandled(w, d, crc32), h, crc32);
    case EofPdu(tid, _) =>
      EofObserved(w, tid, crc32);
      EndingRemembered(w, EofHandled(w, tid, crc32), h, crc32);
    case QueryPdu(tid) => EndingRemembered(w, QueryHandled(w, tid), h, crc32);
  }

  /** So does booting. */
  lemma BootedRemembered(w: World, crc32: seq<byte> -> u32)
    requires w.r == Started(w.r.st) && w.r.Ok()
    requires LoadedFrom(w.t.env).Some? ==> Sane(LoadedFrom(w.t.env).value)
    ensures Remembers(Booted(w, crc32), BootObserved(w, crc32))
  {
    if LoadedFrom(w.t.env).Some? {
      var st := LoadedFrom(w.t.env).value;
      var up := w.(r := w.r.(st := st, active := true, current := NO_CHUNK, maxSeen := 0, slots := []));
      CompletionObserved(up, crc32);
      var h := BootObserved(w, crc32);
      LastCompletedSnoc([], Began(st.tid));
      if !Booted(w, crc32).r.active {
        assert h == [Began(st.tid)] + [Ending(Booted(w, crc32), crc32)];
        LastCompletedSnoc([Began(st.tid)], Ending(Booted(w, crc32), crc32));
      }
    }
  }

  /** The receiver after a sequence of PDUs, and all that was observed on the way. */
  function Lived(w: World, pdus: seq<Pdu>, dest: seq<byte>, crc32: seq<byte> -> u32): (World, seq<Occurrence>)
    requires w.r.Ok() && |dest| == PATH_BYTES
    decreases |pdus|
  {
    if pdus == [] then (w, [])
    else
      var w1 := Handled(w, pdus[0], dest, crc32);
      var (last, h) := Lived(w1, pdus[1..], dest, crc32);
      (last, Observed(w.r, w1, crc32) + h)
  }

  /** After any PDUs the receiver remembers its whole history. */
  lemma {:induction false} LivedRemembered(w: World, pdus: seq<Pdu>, h: seq<Occurrence>, dest: seq<byte>,
                                           crc32: seq<byte> -> u32)
    requires Remembers(w, h) && w.r.Ok() && |dest| == PATH_BYTES
    ensures var (w', more) := Lived(w, pdus, dest, crc32);
            w'.r.Ok() && Remembers(w', h + more)
    decreases |pdus|
  {
    hide Handled, Remembers, Observed;
    if pdus == [] {
      assert h + [] == h;
    } else {
      var w1 := Handled(w, pdus[0], dest, crc32);
      HandledRemembered(w, pdus[0], h, dest, crc32);
      LivedRemembered(w1, pdus[1..], h + Observed(w.r, w1, crc32), dest, crc32);
      var more := Lived(w1, pdus[1..], dest, crc32).1;
      assert (h + Observed(w.r, w1, crc32)) + more == h + (Observed(w.r, w1, crc32) + more);
    }
  }

  // ----- final ACKs in answer to Metadata

  /** Metadata is answered with a final ACK for `tid`, and with nothing else. */
  ghost predicate AnswersFinal(w: World, m: Metadata, dest: seq<byte>, tid: u32)
    requires w.r.Ok() && |dest| == PATH_BYTES
  {
    MetadataHandled(w, m, dest).t.env.log == w.t.env.log + [Send(AckReply(tid, FINAL))]
  }

  /** What a boot and any PDUs, with any ids, lead to. */
  ghost predicate Lives(w0: World, pdus: seq<Pdu>, w: World, h: seq<Occurrence>, dest: seq<byte>,
                        crc32: seq<byte> -> u32)
    requires |dest| == PATH_BYTES
  {
    && w0.r == Started(w0.r.st) && w0.r.Ok()
    && (LoadedFrom(w0.t.env).Some? ==> Sane(LoadedFrom(w0.t.env).value))
    && var (last, more) := Lived(Booted(w0, crc32), pdus, dest, crc32);
       w == last && h == BootObserved(w0, crc32) + more
  }

  lemma LivesRemembered(w0: World, pdus: seq<Pdu>, w: World, h: seq<Occurrence>, dest: seq<byte>,
                        crc32: seq<byte> -> u32)
    requires |dest| == PATH_BYTES && Lives(w0, pdus, w, h, dest, crc32)
    ensures w.r.Ok() && Remembers(w, h)
  {
    hide Booted, Lived, Remembers;
    BootedRemembered(w0, crc32);
    LivedRemembered(Booted(w0, crc32), pdus, BootObserved(w0, crc32), dest, crc32);
  }

  /** When Metadata brings a final ACK, and whose: no transfer is running, and the Metadata carries the id of the
      latest completed one, 0 if none has completed. The ACK carries the id of the latest transfer instead,
      completed or not; before the first transfer it carries whatever the state record held. */
  lemma FinalAckIff(w0: World, pdus: seq<Pdu>, w: World, h: seq<Occurrence>, m: Metadata, dest: seq<byte>,
                    crc32: seq<byte> -> u32)
    requires |dest| == PATH_BYTES && Lives(w0, pdus, w, h, dest, crc32)
    ensures w.r.Ok()
    ensures (exists tid: u32 :: AnswersFinal(w, m, dest, tid)) <==> Quiet(h) && m.tid == LastCompleted(h)
    ensures Quiet(h) && m.tid == LastCompleted(h) ==>
              AnswersFinal(w, m, dest, if h == [] then w.r.st.tid else Last(h).tid)
  {
    LivesRemembered(w0, pdus, w, h, dest, crc32);
    AnswerIff(w, m, h, dest);
  }

  lemma AnswerIff(w: World, m: Metadata, h: seq<Occurrence>, dest: seq<byte>)
    requires |dest| == PATH_BYTES && w.r.Ok() && Remembers(w, h)
    ensures (exists tid: u32 :: AnswersFinal(w, m, dest, tid)) <==> Quiet(h) && m.tid == LastCompleted(h)
    ensures Quiet(h) && m.tid == LastCompleted(h) ==>
              AnswersFinal(w, m, dest, if h == [] then w.r.st.tid else Last(h).tid)
  {
    var w' := MetadataHandled(w, m, dest);
    if w.r.active || w.r.lastAcked != m.tid {
      NoAckOnStart(w, m, dest);
    } else {
      assert AnswersFinal(w, m, dest, w.r.st.tid);
    }
  }

  lemma NoAckOnStart(w: World, m: Metadata, dest: seq<byte>)
    requires |dest| == PATH_BYTES && w.r.Ok() && (w.r.active || w.r.lastAcked != m.tid)
    ensures forall tid: u32 :: !AnswersFinal(w, m, dest, tid)
  {
    var log, log' := w.t.env.log, MetadataHandled(w, m, dest).t.env.log;
    if |log'| == |log| + 1 {
      assert !log'[|log|].Send?;
    }
  }

  /** The latest that was observed of `tid`. */
  function LatestOf(h: seq<Occurrence>, tid: u32): Option<Occurrence>
  {
    if h == [] then None
    else if Last(h).tid == tid then Some(Last(h))
    else LatestOf(h[..|h| - 1], tid)
  }

  /** Such a final ACK is true, that is the transfer it names has completed, if and only if the latest transfer
      has; and it then names the transfer of the Metadata. */
  lemma FinalAckTrueIff(w0: World, pdus: seq<Pdu>, w: World, h: seq<Occurrence>, m: Metadata, dest: seq<byte>,
                        crc32: seq<byte> -> u32, tid: u32)
    requires |dest| == PATH_BYTES && Lives(w0, pdus, w, h, dest, crc32)
    requires w.r.Ok() && AnswersFinal(w, m, dest, tid)
    ensures LatestOf(h, tid) == Some(Completed(tid)) <==> h != [] && Last(h).Completed?
    ensures h != [] && Last(h).Completed? ==> tid == m.tid
    ensures h != [] ==> LatestOf(h, tid) == Some(Last(h))
  {
    FinalAckIff(w0, pdus, w, h, m, dest, crc32);
    SameAnswer(w, m, dest, tid, if h == [] then w.r.st.tid else Last(h).tid);
  }

  lemma SameAnswer(w: World, m: Metadata, dest: seq<byte>, a: u32, b: u32)
    requires w.r.Ok() && |dest| == PATH_BYTES && AnswersFinal(w, m, dest, a) && AnswersFinal(w, m, dest, b)
    ensures a == b
  {
    var log := MetadataHandled(w, m, dest).t.env.log;
    assert log[|log| - 1] == Send(AckReply(a, FINAL)) == Send(AckReply(b, FINAL));
  }

  /** A false one can be had by the sender of the failed file itself: after `a` has completed and `b` has
      begun, `a` is begun once more, and the receiver still takes its id for a completed one. */
  lemma CompletedIdBegunAgain(w: World, h: seq<Occurrence>, a: Metadata, b: Metadata, dest: seq<byte>,
                              crc32: seq<byte> -> u32)
    requires |dest| == PATH_BYTES && w.r.Ok() && Remembers(w, h) && Quiet(h) && LastCompleted(h) == a.tid
    requires Acceptable(a) && Acceptable(b) && b.tid != a.tid
    ensures var (w', more) := Lived(w, [MetadataPdu(b), MetadataPdu(a)], dest, crc32);
            && more == [Began(b.tid), Began(a.tid)]
            && Remembers(w', h + more) && LastCompleted(h + more) == a.tid
            && w'.r.active && w'.r.st.tid == a.tid == w'.r.lastAcked
  {
    var pdus := [MetadataPdu(b), MetadataPdu(a)];
    LivedRemembered(w, pdus, h, dest, crc32);
    var w1 := MetadataHandled(w, b, dest);
    var w2 := MetadataHandled(w1, a, dest);
    assert pdus[1..] == [MetadataPdu(a)] && pdus[1..][1..] == [];
    assert Lived(w2, [], dest, crc32) == (w2, []);
    assert Lived(w1, [MetadataPdu(a)], dest, crc32) == (w2, [Began(a.tid)] + []);
    assert [Began(b.tid)] + [Began(a.tid)] == [Began(b.tid), Began(a.tid)];
  }

  // ----- final ACKs in answer to any PDU

  predicate IsFinal(e: Event) { e.Send? && e.reply.AckReply? && e.reply.chunk == FINAL }

  /** A final ACK is sent between the two logs. */
  ghost predicate SendsFinal(before: seq<Event>, after: seq<Event>)
  {
    exists k | |before| <= k < |after| :: IsFinal(after[k])
  }

  /** The log grows without a final ACK. */
  ghost predicate Plainly(before: seq<Event>, after: seq<Event>)
  {
    before <= after && !SendsFinal(before, after)
  }

  lemma PlainlyThen(a: seq<Event>, b: seq<Event>, c: seq<Event>)
    requires Plainly(a, b) && b <= c
    ensures a <= c && (SendsFinal(a, c) <==> SendsFinal(b, c))
  {
    forall k | |a| <= k < |b|
      ensures !IsFinal(c[k])
    {
      assert c[k] == b[k];
    }
  }

  /** A final ACK goes out exactly if the transfer ends with a file that passes. */
  ghost predicate AcksItsEnd(w: World, w': World, crc32: seq<byte> -> u32)
  {
    && w.t.env.log <= w'.t.env.log
    && (SendsFinal(w.t.env.log, w'.t.env.log) <==> !w'.r.active && Ending(w', crc32).Completed?)
  }

  lemma CompletionFinal(w: World, crc32: seq<byte> -> u32)
    requires w.r.Ok() && Sane(w.r.st) && w.r.active
    ensures AcksItsEnd(w, CompletionChecked(w, crc32), crc32)
  {
    var w' := CompletionChecked(w, crc32);
    if !w'.r.active && Ending(w', crc32).Completed? {
      assert IsFinal(w'.t.env.log[|w.t.env.log|]);
    }
  }

  lemma AllocatedPlainly(t: Trail, fileSize: u64)
    ensures Plainly(t.env.log, Allocated(t, fileSize).env.log)
  {
  }

  lemma StoredPlainly(w: World, c: u32)
    requires w.r.Ok() && Sane(w.r.st) && c < w.r.st.totalChunks
    ensures Plainly(w.t.env.log, Acked(ChunkStored(w, c), c).t.env.log)
  {
    hide Assembled;
    var log, written := w.t.env.log, ChunkWritten(w, c).env.log;
    assert Plainly(log, written);
    MarkedPlainly(ChunkWritten(w, c), c);
    var marked := ChunkStored(w, c).t.env.log;
    PlainlyThen(log, written, marked);
    PlainlyThen(log, marked, Acked(ChunkStored(w, c), c).t.env.log);
  }

  lemma MarkedPlainly(t: Trail, c: u32)
    ensures Plainly(t.env.log, ChunkMarked(t, c).env.log)
  {
  }

  lemma FlushedFinal(w: World, c: u32, crc32: seq<byte> -> u32)
    requires w.r.Ok() && Sane(w.r.st) && w.r.active && c < w.r.st.totalChunks
    ensures AcksItsEnd(w, Flushed(w, c, crc32), crc32)
  {
    hide ChunkStored, SendsFinal;
    var t := Allocated(w.t, w.r.st.fileSize);
    AllocatedPlainly(w.t, w.r.st.fileSize);
    if t.env.file.Some? {
      var idle := Idled(Acked(ChunkStored(w.(t := t), c), c));
      StoredPlainly(w.(t := t), c);
      StoredActive(w.(t := t), c);
      PlainlyThen(w.t.env.log, t.env.log, idle.t.env.log);
      if idle.r.st.eof {
        CompletionFinal(idle, crc32);
        PlainlyThen(w.t.env.log, idle.t.env.log, CompletionChecked(idle, crc32).t.env.log);
      }
    }
  }

  lemma StoredActive(w: World, c: u32)
    requires w.r.Ok() && Sane(w.r.st) && c < w.r.st.totalChunks
    ensures ChunkStored(w, c).r.active == w.r.active
  {
  }

  lemma DataFinal(w: World, d: Data, crc32: seq<byte> -> u32)
    requires w.r.Ok() && w.r.active
    ensures AcksItsEnd(w, DataHandled(w, d, crc32), crc32)
  {
    if Accepts(w.r, d) && !w.r.st.done[d.chunk] {
      var stored := PacketStored(Opened(Seen(w, d.chunk), d), d);
      assert Plainly(w.t.env.log, stored.t.env.log);
      if Complete(stored.r.slots) {
        FlushedFinal(stored, d.chunk, crc32);
        PlainlyThen(w.t.env.log, stored.t.env.log, Flushed(stored, d.chunk, crc32).t.env.log);
      }
    }
  }

  lemma EofFinal(w: World, tid: u32, crc32: seq<byte> -> u32)
    requires w.r.Ok() && w.r.active
    ensures AcksItsEnd(w, EofHandled(w, tid, crc32), crc32)
  {
    if tid == w.r.st.tid {
      var marked := MarkedEof(w);
      assert Plainly(w.t.env.log, marked.t.env.log);
      CompletionFinal(marked, crc32);
      PlainlyThen(w.t.env.log, marked.t.env.log, CompletionChecked(marked, crc32).t.env.log);
    }
  }

  /** Exactly when a PDU brings a final ACK: a running transfer ends with a file that passes its checksum, or no
      transfer runs and it is Metadata with the id remembered as completed. */
  lemma FinalAckSentIff(w: World, pdu: Pdu, dest: seq<byte>, crc32: seq<byte> -> u32)
    requires w.r.Ok() && |dest| == PATH_BYTES
    ensures var w' := Handled(w, pdu, dest, crc32);
            && w.t.env.log <= w'.t.env.log
            && (SendsFinal(w.t.env.log, w'.t.env.log) <==>
                  if w.r.active then !w'.r.active && Ending(w', crc32).Completed?
                  else pdu.MetadataPdu? && pdu.meta.tid == w.r.lastAcked)
  {
    match pdu
    case MetadataPdu(m) => MetadataFinal(w, m, dest);
    case DataPdu(d) =>
      if w.r.active {
        DataFinal(w, d, crc32);
      }
    case EofPdu(tid, _) =>
      if w.r.active {
        EofFinal(w, tid, crc32);
      }
    case QueryPdu(tid) =>
  }

  lemma MetadataFinal(w: World, m: Metadata, dest: seq<byte>)
    requires w.r.Ok() && |dest| == PATH_BYTES
    ensures var w' := MetadataHandled(w, m, dest);
            && w.t.env.log <= w'.t.env.log && (w.r.active ==> w'.r.active)
            && (SendsFinal(w.t.env.log, w'.t.env.log) <==> !w.r.active && m.tid == w.r.lastAcked)
  {
    if !w.r.active && m.tid == w.r.lastAcked {
      assert IsFinal(MetadataHandled(w, m, dest).t.env.log[|w.t.env.log|]);
    }
  }

  /** Booting sends one exactly if the journal holds a complete transfer whose file passes. */
  lemma BootFinalAckIff(w: World, crc32: seq<byte> -> u32)
    requires w.r == Started(w.r.st) && w.r.Ok()
    requires LoadedFrom(w.t.env).Some? ==> Sane(LoadedFrom(w.t.env).value)
    ensures var w' := Booted(w, crc32);
            && w.t.env.log <= w'.t.env.log
            && (SendsFinal(w.t.env.log, w'.t.env.log) <==>
                  LoadedFrom(w.t.env).Some? && !w'.r.active && Ending(w', crc32).Completed?)
  {
    if LoadedFrom(w.t.env).Some? {
      var st := LoadedFrom(w.t.env).value;
      var up := w.(r := w.r.(st := st, active := true, current := NO_CHUNK, maxSeen := 0, slots := []));
      CompletionFinal(up, crc32);
    }
  }

  // ----- a file that fails its checksum

  /** However a transfer ends with a file that fails, at EOF or inside a flush: it ends without a final ACK, and is
      acknowledged as complete after all by Metadata with the id of the transfer completed last, and by no other. */
  lemma FailedTransferAckedIff(w: World, pdu: Pdu, m: Metadata, dest: seq<byte>, crc32: seq<byte> -> u32)
    requires w.r.Ok() && w.r.active && |dest| == PATH_BYTES
    requires var failed := Handled(w, pdu, dest, crc32);
             !failed.r.active && Ending(failed, crc32).Discarded?
    ensures var failed := Handled(w, pdu, dest, crc32);
            && Plainly(w.t.env.log, failed.t.env.log)
            && Observed(w.r, failed, crc32) == [Discarded(w.r.st.tid)]
            && (AnswersFinal(failed, m, dest, w.r.st.tid) <==> m.tid == w.r.lastAcked)
  {
    FinalAckSentIff(w, pdu, dest, crc32);
    FailedRemembered(w, pdu, dest, crc32);
    var failed := Handled(w, pdu, dest, crc32);
    if m.tid != w.r.lastAcked {
      NoAckOnStart(failed, m, dest);
    }
  }

  lemma FailedRemembered(w: World, pdu: Pdu, dest: seq<byte>, crc32: seq<byte> -> u32)
    requires w.r.Ok() && w.r.active && |dest| == PATH_BYTES
    requires var failed := Handled(w, pdu, dest, crc32);
             !failed.r.active && Ending(failed, crc32).Discarded?
    ensures var failed := Handled(w, pdu, dest, crc32);
            failed.r.lastAcked == w.r.lastAcked && failed.r.st.tid == w.r.st.tid
  {
    match pdu
    case MetadataPdu(m) =>
    case DataPdu(d) => DataObserved(w, d, crc32);
    case EofPdu(tid, _) => EofObserved(w, tid, crc32);
    case QueryPdu(tid) =>
  }

  /** The same for a transfer that ends while booting: there the only such id is 0. */
  lemma FailedBootAckedIff(w: World, m: Metadata, dest: seq<byte>, crc32: seq<byte> -> u32)
    requires w.r == Started(w.r.st) && w.r.Ok() && |dest| == PATH_BYTES
    requires LoadedFrom(w.t.env).Some? && Sane(LoadedFrom(w.t.env).value)
    requires !Booted(w, crc32).r.active && Ending(Booted(w, crc32), crc32).Discarded?
    ensures var failed, tid := Booted(w, crc32), LoadedFrom(w.t.env).value.tid;
            && Plainly(w.t.env.log, failed.t.env.log)
            && (AnswersFinal(failed, m, dest, tid) <==> m.tid == 0)
  {
    BootFinalAckIff(w, crc32);
    BootedRemembered(w, crc32);
    var failed := Booted(w, crc32);
    assert failed.r.lastAcked == 0;
    if m.tid != 0 {
      NoAckOnStart(failed, m, dest);
    }
  }
}
