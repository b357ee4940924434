/** The receiver's surroundings: the destination file in the page cache and on the
    medium, the journal file, and the replies already handed to the link. */
module Storage {
  import opened Bytes
  import opened Wire
  import opened JournalCodec

  /** One effect the receiver can have on its surroundings. */
  datatype Event =
    | CreateFile
    | WriteFile(at: nat, data: seq<byte>)
    | SyncFile
    | WriteTmp(st: JournalState)
    | RenameTmp
    | RemoveJournal
    | Send(reply: Reply)

  /** `file` is what the process sees; `durable` is what a crash is sure to leave. */
  datatype Env = Env(file: Option<seq<byte>>, durable: Option<seq<byte>>,
                     journal: Image, tmp: Image, log: seq<Event>)

  /** Writing past the end leaves a hole of zeros; writing nothing does not extend the file. */
  function WriteAt(f: seq<byte>, at: nat, data: seq<byte>): (g: seq<byte>)
    ensures |g| == if data == [] || at + |data| <= |f| then |f| else at + |data|
    ensures forall p | 0 <= p < |data| :: g[at + p] == data[p]
    ensures forall p | 0 <= p < |f| && !(at <= p < at + |data|) :: g[p] == f[p]
  {
    if data == [] then f
    else
      var base := if |f| < at then f + Zeros(at - |f|) else f;
      base[..at] + data + if at + |data| <= |base| then base[at + |data|..] else []
  }

  function Apply(env: Env, e: Event): Env
  {
    var env := env.(log := env.log + [e]);
    match e
    case CreateFile => env.(file := Some([]))
    case WriteFile(at, data) =>
      (match env.file
       case None => env
       case Some(f) => env.(file := Some(WriteAt(f, at, data))))
    case SyncFile => env.(durable := env.file)
    case WriteTmp(st) => env.(tmp := Holds(st))
    case RenameTmp => env.(journal := env.tmp, tmp := Absent)
    case RemoveJournal => env.(journal := Absent)
    case Send(_) => env
  }

  /** The present surroundings and all those passed through on the way. */
  datatype Trail = Trail(env: Env, past: seq<Env>)

  function Emit(t: Trail, e: Event): Trail
  {
    var env := Apply(t.env, e);
    Trail(env, t.past + [env])
  }

  /** The bytes handed to the transport, in order. */
  function SentBytes(log: seq<Event>): seq<seq<byte>>
  {
    if log == [] then []
    else
      var e := log[|log| - 1];
      SentBytes(log[..|log| - 1]) + if e.Send? then [ReplyBytes(e.reply)] else []
  }

  /** `content`, when it is read, loads as `im`. */
  ghost predicate Means(content: Option<seq<byte>>, im: Image)
  {
    forall c | BeingRead(c) && c == content :: im == ImageOf(c)
  }

  /** Marks a file content that is being read; always true. */
  ghost predicate BeingRead(content: Option<seq<byte>>) { true }

  lemma EncodedMeans(st: JournalState)
    requires st.Storable()
    ensures Means(Some(Encode(st)), Holds(st))
  {
    ImageOfEncoded(st);
  }

  lemma NothingMeansAbsent()
    ensures Means(None, Absent)
  {
  }

  class Platform {
    var file: Option<seq<byte>>
    ghost var durable: Option<seq<byte>>
    var journal: Option<seq<byte>>
    var tmp: Option<seq<byte>>
    ghost var journalImage: Image
    ghost var tmpImage: Image
    var sent: seq<seq<byte>>
    ghost var log: seq<Event>
    ghost var past: seq<Env>

    ghost function Now(): Env
      reads this
    {
      Env(file, durable, journalImage, tmpImage, log)
    }

    ghost function View(): Trail
      reads this
    {
      Trail(Now(), past)
    }

    ghost predicate Valid()
      reads this
    {
      && sent == SentBytes(log)
      && Means(journal, journalImage)
      && Means(tmp, tmpImage)
    }

    constructor (file: Option<seq<byte>>, journal: Option<seq<byte>>)
      ensures Valid() && View().env == Env(file, file, ImageOf(journal), Absent, []) && View().past == [View().env]
    {
      this.file, this.durable, this.journal, this.tmp := file, file, journal, None;
      journalImage, tmpImage := ImageOf(journal), Absent;
      sent, log, past := [], [], [Env(file, file, ImageOf(journal), Absent, [])];
    }

    ghost method Record(e: Event)
      modifies `log, `past
      ensures log == old(log) + [e] && past == old(past) + [Now()]
      ensures SentBytes(log) == SentBytes(old(log)) + if e.Send? then [ReplyBytes(e.reply)] else []
    {
      log := log + [e];
      past := past + [Now()];
      assert log[..|log| - 1] == old(log);
    }

    method Create()
      requires Valid()
      modifies this
      ensures Valid() && View() == Emit(old(View()), CreateFile)
    {
      file := Some([]);
      Record(CreateFile);
    }

    method Write(at: nat, data: seq<byte>)
      requires Valid() && file.Some?
      modifies this
      ensures Valid() && View() == Emit(old(View()), WriteFile(at, data))
    {
      file := Some(WriteAt(file.value, at, data));
      Record(WriteFile(at, data));
    }

    method Sync()
      requires Valid()
      modifies this
      ensures Valid() && View() == Emit(old(View()), SyncFile)
    {
      durable := file;
      Record(SyncFile);
    }

    method StoreTmp(content: seq<byte>, ghost st: JournalState)
      requires Valid() && st.Storable() && content == Encode(st)
      modifies this
      ensures Valid() && View() == Emit(old(View()), WriteTmp(st))
    {
      EncodedMeans(st);
      tmp := Some(content);
      tmpImage := Holds(st);
      Record(WriteTmp(st));
    }

    method ReplaceJournal()
      requires Valid()
      modifies this
      ensures Valid() && View() == Emit(old(View()), RenameTmp)
    {
      NothingMeansAbsent();
      journal, tmp := tmp, None;
      journalImage, tmpImage := tmpImage, Absent;
      Record(RenameTmp);
    }

    method DeleteJournal()
      requires Valid()
      modifies this
      ensures Valid() && View() == Emit(old(View()), RemoveJournal)
    {
      journal := None;
      journalImage := Absent;
      Record(RemoveJournal);
    }

    method SendRaw(raw: seq<byte>, ghost reply: Reply)
      requires Valid() && raw == ReplyBytes(reply)
      modifies this
      ensures Valid() && View() == Emit(old(View()), Send(reply))
    {
      sent := sent + [raw];
      Record(Send(reply));
    }
  }
}
