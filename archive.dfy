/** Whole archives: what the writer produces for a sequence of members, and
    what the reader's `Next` returns when it reads those bytes back. */
module ArArchive {
  import opened Wrappers
  import opened Ascii
  import opened ArHeader
  import opened ArReader
  import opened ArWriter

  /** An archive member: its header and the payload attached to it. */
  datatype Member = Member(header: Header, payload: seq<byte>)

  /** Members the writer accepts: every name fits its 16 bytes. */
  predicate Writable(ms: seq<Member>) {
    forall i | 0 <= i < |ms| :: |ms[i].header.name| <= 16
  }

  /** Members that read back as they were written: representable headers
      whose size is the length of the attached payload. */
  predicate Faithful(ms: seq<Member>) {
    forall i | 0 <= i < |ms| :: Representable(ms[i].header) && ms[i].header.size == |ms[i].payload|
  }

  lemma {:induction false} FaithfulIsWritable(ms: seq<Member>)
    requires Faithful(ms)
    ensures Writable(ms)
  {
    forall i | 0 <= i < |ms|
      ensures |ms[i].header.name| <= 16
    {
      assert Representable(ms[i].header);
    }
  }

  /** The sink after `WriteHeader` has written each member in turn with its
      payload attached: lead, header record, payload. */
  function ArchiveBytes(ms: seq<Member>): seq<byte>
    requires Writable(ms)
    decreases |ms|
  {
    if ms == [] then []
    else
      var out := ArchiveBytes(ms[..|ms| - 1]);
      var m := ms[|ms| - 1];
      out + Lead(|out|) + Marshal(m.header).value + m.payload
  }

  /** Writing the members one after the other with a fresh writer. */
  method WriteArchive(ms: seq<Member>) returns (w: Writer)
    requires Writable(ms)
    ensures fresh(w) && w.Valid() && w.out == ArchiveBytes(ms)
  {
    w := new Writer();
    var i := 0;
    while i < |ms|
      invariant 0 <= i <= |ms|
      invariant w.Valid() && w.out == ArchiveBytes(ms[..i])
    {
      assert ms[..i + 1][..i] == ms[..i];
      LeadOfWritten(w.offset, |w.out|, w.headers);
      var _, _ := w.WriteHeader(ms[i].header, Some(ms[i].payload));
      i := i + 1;
    }
    assert ms[..|ms|] == ms;
  }

  /** Where member k's header record starts: after the earlier members and
      the signature or pad byte the writer puts before it. */
  function HeaderPos(ms: seq<Member>, k: nat): nat
    requires k < |ms|
  {
    var n := ArchiveSize(ms[..k]);
    n + |Lead(n)|
  }

  /** The writer's byte count for the members: each lead, record and payload. */
  function ArchiveSize(ms: seq<Member>): nat
    decreases |ms|
  {
    if ms == [] then 0
    else
      var n := ArchiveSize(ms[..|ms| - 1]);
      n + |Lead(n)| + HeaderSize + |ms[|ms| - 1].payload|
  }

  lemma {:induction false} ArchiveSizeIsLength(ms: seq<Member>)
    requires Writable(ms)
    ensures |ArchiveBytes(ms)| == ArchiveSize(ms)
    decreases |ms|
  {
    if ms != [] {
      ArchiveSizeIsLength(ms[..|ms| - 1]);
    }
  }

  /** The archive of the first k members is a prefix of the whole archive. */
  lemma {:induction false} ArchivePrefix(ms: seq<Member>, k: nat)
    requires Writable(ms) && k <= |ms|
    ensures ArchiveBytes(ms[..k]) <= ArchiveBytes(ms)
    decreases |ms|
  {
    if k < |ms| {
      var init := ms[..|ms| - 1];
      assert init[..k] == ms[..k];
      ArchivePrefix(init, k);
    } else {
      assert ms[..k] == ms;
    }
  }

  /** Member k's payload ends where the archive of the first k+1 members ends. */
  lemma {:induction false} MemberEnd(ms: seq<Member>, k: nat)
    requires k < |ms|
    ensures HeaderPos(ms, k) + HeaderSize + |ms[k].payload| == ArchiveSize(ms[..k + 1])
  {
    assert ms[..k + 1][..k] == ms[..k];
  }

  /** Member k's record and payload lie at HeaderPos, and the payload ends
      where the archive of the first k+1 members ends. */
  lemma {:induction false} MemberAt(ms: seq<Member>, k: nat)
    requires Writable(ms) && k < |ms|
    ensures var s, data := HeaderPos(ms, k), ArchiveBytes(ms);
      && s + HeaderSize + |ms[k].payload| <= |data|
      && data[s..s + HeaderSize] == Marshal(ms[k].header).value
      && data[s + HeaderSize..s + HeaderSize + |ms[k].payload|] == ms[k].payload
  {
    var before := ArchiveBytes(ms[..k]);
    MemberSplit(ms, k);
    ArchivePrefix(ms, k + 1);
    SlicesOfPrefix(ArchiveBytes(ms[..k + 1]), ArchiveBytes(ms), before + Lead(|before|),
                   Marshal(ms[k].header).value, ms[k].payload);
  }

  /** The archive of the first k+1 members: the first k, member k's lead,
      its record and its payload, the record starting at HeaderPos. */
  lemma {:induction false} MemberSplit(ms: seq<Member>, k: nat)
    requires Writable(ms) && k < |ms|
    ensures var before := ArchiveBytes(ms[..k]);
      && |before| + |Lead(|before|)| == HeaderPos(ms, k)
      && ArchiveBytes(ms[..k + 1]) == before + Lead(|before|) + Marshal(ms[k].header).value + ms[k].payload
  {
    LastMember(ms[..k + 1]);
    assert ms[..k + 1][..k] == ms[..k];
    ArchiveSizeIsLength(ms[..k]);
  }

  /** The last member's lead, record and payload close the archive. */
  lemma {:induction false} LastMember(ms: seq<Member>)
    requires Writable(ms) && ms != []
    ensures var before := ArchiveBytes(ms[..|ms| - 1]);
      ArchiveBytes(ms) == before + Lead(|before|) + Marshal(ms[|ms| - 1].header).value + ms[|ms| - 1].payload
  {
  }

  /** The second and third parts of a prefix of d lie in d where they lie in the prefix. */
  lemma {:induction false} SlicesOfPrefix(u: seq<byte>, d: seq<byte>, a: seq<byte>, b: seq<byte>, c: seq<byte>)
    requires u <= d && u == a + b + c
    ensures |a| + |b| + |c| <= |d|
    ensures d[|a|..|a| + |b|] == b && d[|a| + |b|..|a| + |b| + |c|] == c
  {
    assert d[..|u|] == u;
    assert u[|a|..|a| + |b|] == b;
    assert u[|a| + |b|..|a| + |b| + |c|] == c;
  }

  /** The reader's state after it returned the first k members. */
  function ReaderAt(src: Source, ms: seq<Member>, k: nat): State
    requires Writable(ms) && k <= |ms|
  {
    if k == 0 then Initial
    else
      var end := HeaderPos(ms, k - 1) + HeaderSize;
      State(if src.positioned then |Signature| else end, end, ms[k - 1].header.size, None)
  }

  /** The entry the reader returns for member k, with its payload's section
      in positioned mode. */
  function EntryOf(src: Source, ms: seq<Member>, k: nat): Entry
    requires Faithful(ms) && k < |ms|
  {
    FaithfulIsWritable(ms);
    IdsFit(ms[k].header);
    var s := HeaderPos(ms, k) + HeaderSize;
    ToEntry(ms[k].header, if src.positioned then Some(Section(s, ms[k].header.size)) else None)
  }


  /** The next header of a state is a marshalled representable header h,
      and next and e are the state and entry a step over it produces. */
  predicate RecordAhead(src: Source, st: State, h: Header, next: State, e: Entry) {
    ReadyAt(src, st) && Leads(src, st, h, next, e) && HeaderAt(src, st, ToEntry(h, None))
  }


  /** next and e are the state and entry after h is read at the state's next start. */
  predicate Leads(src: Source, st: State, h: Header, next: State, e: Entry) {
    && 0 <= NextStart(src, st)
    && var end := NextStart(src, st) + HeaderSize;
    && next == State(if !src.positioned then end else if st.offset == 0 then st.pos + 8 else st.pos, end, h.size, None)
    && h.uid < 0x8000_0000 && h.gid < 0x8000_0000
    && e == ToEntry(h, if src.positioned then Some(Section(end, h.size)) else None)
  }

  /** A step whose next header is a marshalled representable header returns
      it, with the section after it in positioned mode. */
  lemma {:induction false} StepOverRecord(src: Source, st: State, h: Header, next: State, e: Entry)
    requires RecordAhead(src, st, h, next, e)
    ensures Step(src, st) == (next, Success(e))
  {
    var e0 := ToEntry(h, None);
    var end := NextStart(src, st) + HeaderSize;
    assert e0.(section := if src.positioned then Some(Section(end, e0.size)) else None) == e;
    assert State(if !src.positioned then end else if st.offset == 0 then st.pos + 8 else st.pos, end, e0.size, None) == next;
    StepReads(src, st, e0);
  }

  /** The reader's skip lands where the writer put the next header: past
      the payload and one pad byte exactly when the payload ends at an odd
      offset. */
  lemma {:induction false} SkipMatchesLead(positioned: bool, offset: int, size: int)
    requires offset > 0 && size >= 0
    ensures HeaderStart(positioned, offset, size) == offset + size + |Lead(offset + size)|
  {
  }

  /** From the reader's state after k members, the next header read is member k's. */
  lemma {:induction false} NextStartAt(src: Source, ms: seq<Member>, k: nat)
    requires Faithful(ms) && Writable(ms) && k < |ms|
    ensures NextStart(src, ReaderAt(src, ms, k)) == HeaderPos(ms, k)
  {
    if k > 0 {
      var j := k - 1;
      MemberEnd(ms, j);
      assert Representable(ms[j].header) && ms[j].header.size == |ms[j].payload|;
      SkipMatchesLead(src.positioned, HeaderPos(ms, j) + HeaderSize, ms[j].header.size);
    }
  }

  /** A non-empty archive starts with the signature, written before the
      first header. */
  lemma {:induction false} SignatureFirst(ms: seq<Member>)
    requires Writable(ms) && ms != []
    ensures |ArchiveBytes(ms)| >= 8 && ArchiveBytes(ms)[..8] == Signature
  {
    ArchivePrefix(ms, 1);
    assert ms[..1][..0] == [];
    var first := ArchiveBytes(ms[..1]);
    assert first == Signature + Marshal(ms[0].header).value + ms[0].payload;
    assert first[..8] == Signature;
  }

  /** From the reader's state after k members, member k's record is ahead,
      and the step over it leads to the state after k+1 members. */
  lemma {:induction false} MemberAhead(src: Source, ms: seq<Member>, k: nat)
    requires Faithful(ms) && Readable(src) && k < |ms|
    requires Writable(ms) && src.data == ArchiveBytes(ms)
    ensures RecordAhead(src, ReaderAt(src, ms, k), ms[k].header, ReaderAt(src, ms, k + 1), EntryOf(src, ms, k))
  {
    ReadyAtMember(src, ms, k);
    RecordAtMember(src, ms, k);
    LeadsToNext(src, ms, k);
  }

  lemma {:induction false} ReadyAtMember(src: Source, ms: seq<Member>, k: nat)
    requires Faithful(ms) && Readable(src) && k < |ms|
    requires Writable(ms) && src.data == ArchiveBytes(ms)
    ensures ReadyAt(src, ReaderAt(src, ms, k))
  {
    if k == 0 {
      SignatureFirst(ms);
    }
  }

  lemma {:induction false} RecordAtMember(src: Source, ms: seq<Member>, k: nat)
    requires Faithful(ms) && k < |ms|
    requires Writable(ms) && src.data == ArchiveBytes(ms)
    ensures ms[k].header.uid < 0x8000_0000 && ms[k].header.gid < 0x8000_0000
    ensures HeaderAt(src, ReaderAt(src, ms, k), ToEntry(ms[k].header, None))
  {
    NextStartAt(src, ms, k);
    MemberAt(ms, k);
    assert Representable(ms[k].header);
    NewHeaderMarshal(ms[k].header);
  }

  lemma {:induction false} LeadsToNext(src: Source, ms: seq<Member>, k: nat)
    requires Faithful(ms) && k < |ms|
    requires Writable(ms)
    ensures Leads(src, ReaderAt(src, ms, k), ms[k].header, ReaderAt(src, ms, k + 1), EntryOf(src, ms, k))
  {
    NextStartAt(src, ms, k);
    assert Representable(ms[k].header);
    IdsFit(ms[k].header);
  }

  /** Reading member k back: the step returns its entry and moves to the
      state after it. */
  lemma {:induction false} StepMember(src: Source, ms: seq<Member>, k: nat)
    requires Faithful(ms) && Readable(src) && k < |ms|
    requires Writable(ms) && src.data == ArchiveBytes(ms)
    ensures Step(src, ReaderAt(src, ms, k)) == (ReaderAt(src, ms, k + 1), Success(EntryOf(src, ms, k)))
  {
    MemberAhead(src, ms, k);
    StepOverRecord(src, ReaderAt(src, ms, k), ms[k].header, ReaderAt(src, ms, k + 1), EntryOf(src, ms, k));
  }

  /** The entries the reader returns for the members from k on. */
  function EntriesFrom(src: Source, ms: seq<Member>, k: nat): seq<Entry>
    requires Faithful(ms) && k <= |ms|
    decreases |ms| - k
  {
    if k == |ms| then [] else [EntryOf(src, ms, k)] + EntriesFrom(src, ms, k + 1)
  }

  /** The calls of `Next` from the state after k members. */
  lemma {:induction false} RunFrom(src: Source, ms: seq<Member>, k: nat)
    requires Faithful(ms) && Readable(src) && k <= |ms|
    requires Writable(ms) && src.data == ArchiveBytes(ms)
    ensures Run(src, ReaderAt(src, ms, k), |ms| - k) == (ReaderAt(src, ms, |ms|), Successes(EntriesFrom(src, ms, k)))
    decreases |ms| - k
  {
    if k < |ms| {
      StepMember(src, ms, k);
      RunFrom(src, ms, k + 1);
    }
  }

  /** Each entry as a successful result of `Next`. */
  function Successes(es: seq<Entry>): (r: seq<Result<Entry, NextError>>)
    ensures |r| == |es| && forall i | 0 <= i < |es| :: r[i] == Success(es[i])
    decreases |es|
  {
    if es == [] then [] else [Success(es[0])] + Successes(es[1..])
  }

  /** Reading back a written archive: the first |ms| calls of `Next` return
      the members' headers in order, with each payload's section in
      positioned mode. */
  lemma {:induction false} ReadBack(src: Source, ms: seq<Member>)
    requires Faithful(ms) && Readable(src)
    requires Writable(ms) && src.data == ArchiveBytes(ms)
    ensures Run(src, Initial, |ms|) == (ReaderAt(src, ms, |ms|), Successes(EntriesFrom(src, ms, 0)))
  {
    RunFrom(src, ms, 0);
  }

  /** The entry for member k is its header, the ids kept, and in positioned
      mode its section covers exactly the member's payload. */
  lemma {:induction false} EntryIsMember(src: Source, ms: seq<Member>, k: nat)
    requires Faithful(ms) && Writable(ms) && k < |ms|
    requires src.data == ArchiveBytes(ms)
    ensures var e, h := EntryOf(src, ms, k), ms[k].header;
      && e.name == h.name && e.modTime == h.modTime && e.uid == h.uid && e.gid == h.gid
      && e.mode == h.mode && e.size == h.size
      && (e.section.Some? <==> src.positioned)
      && (src.positioned ==> e.section.value.start >= 0 && View(src.data, e.section.value) == ms[k].payload)
  {
    MemberAt(ms, k);
    assert ms[k].header.size == |ms[k].payload|;
  }

  /** After the last member, the next call of `Next` ends the archive: a
      clean EOF, except that a sequential reader reports an unexpected EOF
      when the last payload ends at an odd offset, because the writer never
      pads the last member. */
  lemma {:induction false} ReadsToEnd(src: Source, ms: seq<Member>)
    requires Faithful(ms) && Readable(src) && ms != []
    requires Writable(ms) && src.data == ArchiveBytes(ms)
    ensures Step(src, ReaderAt(src, ms, |ms|)).1 ==
      Failure(if !src.positioned && |src.data| % 2 == 1 then Io(UnexpectedEOF) else Io(EOF))
  {
    var k := |ms| - 1;
    MemberEnd(ms, k);
    assert ms[..k + 1] == ms;
    ArchiveSizeIsLength(ms);
    assert ms[k].header.size == |ms[k].payload|;
    StepAtEnd(src, ReaderAt(src, ms, |ms|));
  }

  /** An archive without members is empty: the writer never wrote the
      signature, so the first call fails reading it. */
  lemma {:induction false} EmptyArchive(src: Source)
    requires src.data == ArchiveBytes([])
    ensures Step(src, Initial) == (Initial.(err := Some(SignatureUnreadable(EOF))), Failure(SignatureUnreadable(EOF)))
  {
  }

  // ---------------------------------------------------------------------------
  // The writer's test

  const FixtureTime: int64 := 1342943816

  /** The test's writer session: a header with a 4-byte payload, then two
      headers whose payload is written with `Write`, an odd total before the
      last one so that a pad byte precedes it. */
  method WriterSession() returns (n1: nat, n2: nat, n3: nat, n4: nat, n5: nat,
                                  out1: seq<byte>, out2: seq<byte>, out3: seq<byte>,
                                  errs: seq<Option<MarshalError>>)
    ensures n1 == 4 && n2 == 0 && n3 == 3 && n4 == 0 && n5 == 3
    ensures errs == [None, None, None]
    ensures out1 == "!<arch>\n"
      + ("debian-binary   " + "1342943816  " + "0     " + "1     " + "100644  " + "4         " + "`\n") + "2.0\n"
    ensures out2 == out1
      + ("hello           " + "1342943816  " + "0     " + "1     " + "100644  " + "3         " + "`\n") + "123"
    ensures out3 == out2 + "\n"
      + ("hello           " + "1342943816  " + "0     " + "1     " + "100644  " + "40        " + "`\n") + "123"
  {
    var first := Header("debian-binary", FixtureTime, 0, 1, 0x81A4, 4);
    var second := Header("hello", FixtureTime, 0, 1, 0x81A4, 3);
    var third := Header("hello", FixtureTime, 0, 1, 0x81A4, 40);
    DebianBinaryHeader(first);
    HelloHeader(second);
    HelloHeader(third);
    n1, n2, n3, n4, n5, out1, out2, out3, errs := Session(first, "2.0\n", second, "123", third, "123");
  }

  /** The session's calls for any three headers that marshal, after a
      4-byte payload and a 3-byte write: the third header is padded. */
  method Session(first: Header, p1: seq<byte>, second: Header, b2: seq<byte>, third: Header, b3: seq<byte>)
    returns (n1: nat, n2: nat, n3: nat, n4: nat, n5: nat,
             out1: seq<byte>, out2: seq<byte>, out3: seq<byte>, errs: seq<Option<MarshalError>>)
    requires |first.name| <= 16 && |second.name| <= 16 && |third.name| <= 16
    requires |p1| == 4 && |b2| == 3
    ensures n1 == |p1| && n2 == 0 && n3 == |b2| && n4 == 0 && n5 == |b3|
    ensures errs == [None, None, None]
    ensures out1 == Signature + Marshal(first).value + p1
    ensures out2 == out1 + Marshal(second).value + b2
    ensures out3 == out2 + "\n" + Marshal(third).value + b3
  {
    var w := new Writer();
    var e1, e2, e3;
    n1, e1 := w.WriteHeader(first, Some(p1));
    out1 := w.out;
    assert w.offset == 132;
    assert Lead(132) == [];
    n2, e2 := w.WriteHeader(second, None);
    n3 := w.Write(b2);
    out2 := w.out;
    assert w.offset == 255;
    assert Lead(255) == "\n";
    n4, e3 := w.WriteHeader(third, None);
    n5 := w.Write(b3);
    out3 := w.out;
    errs := [e1, e2, e3];
  }

  /** The `hello` headers of the test, of size 3 or 40. */
  lemma {:induction false} HelloHeader(h: Header)
    requires FixtureMeta(h) && h.name == "hello" && (h.size == 3 || h.size == 40)
    ensures Marshal(h) == Success("hello           " + "1342943816  " + "0     " + "1     " + "100644  "
                                  + (if h.size == 3 then "3         " else "40        ") + "`\n")
  {
    FixtureHeader(h);
    assert Fit(h.name, 16) == "hello           ";
    if h.size == 3 {
      assert FormatNat(3, 10) == "3";
      assert Fit(Rendering(h, SizeField), 10) == "3         ";
    } else {
      assert FormatNat(4, 10) == "4";
      assert FormatNat(40, 10) == "40";
      assert Fit(Rendering(h, SizeField), 10) == "40        ";
    }
  }
}
