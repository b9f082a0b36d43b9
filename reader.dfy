/** The archive reader of deb/ar/reader.go: a state machine over an input
    stream that checks the signature once, skips each payload and its pad
    byte, and decodes one 60-byte header per call of `Next`.

    The input is its bytes, a cursor, and two capabilities: whether it is an
    `io.ReaderAt` (positioned mode, headers read with `ReadAt` and payloads
    exposed as section descriptors) and how it behaves as an `io.Seeker`. */
module ArReader {
  import opened Wrappers
  import opened Ascii
  import opened ArHeader

  // ---------------------------------------------------------------------------
  // The input stream

  /** The error values of the io package that the reader can see. */
  datatype IoError =
    | EOF            // io.EOF
    | UnexpectedEOF  // io.ErrUnexpectedEOF
    | SeekError      // an error returned by Seek after a successful probe
    | NegativeOffset // ReadAt's refusal of an offset below zero

  /** How the stream answers `r.(io.Seeker)` and the seeks `discard` makes. */
  datatype Seeker =
    | NotSeeker            // no Seek method
    | ProbeFails           // Seek exists but the probe Seek(0, SeekCurrent) fails (a pipe)
    | SeekFailsAfterProbe  // the probe succeeds and the real seek fails
    | Seeks                // a file-like seeker; seeking past the end is allowed

  datatype Source = Source(data: seq<byte>, positioned: bool, seeker: Seeker)

  /** `io.ReadFull` from the cursor: n bytes, or EOF when none was left, or
      UnexpectedEOF after a partial read that consumed the rest. */
  function ReadFull(data: seq<byte>, pos: nat, n: nat): (r: (nat, Result<seq<byte>, IoError>))
    requires n > 0
    ensures r.1.Success? <==> pos + n <= |data|
    ensures r.1.Success? ==> r.1.value == data[pos..pos + n] && r.0 == pos + n
    ensures r.1.Failure? ==> (r.1.error == EOF <==> pos >= |data|) && r.1.error in {EOF, UnexpectedEOF}
    ensures r.1.Failure? ==> r.0 == if pos < |data| then |data| else pos
  {
    if pos + n <= |data| then (pos + n, Success(data[pos..pos + n]))
    else if pos >= |data| then (pos, Failure(EOF))
    else (|data|, Failure(UnexpectedEOF))
  }

  /** `ReadAt(p, off)` of a byte slice or file: the count of bytes read, and
      EOF whenever fewer than n were available. */
  function ReadAt(data: seq<byte>, off: int, n: nat): (r: (nat, Result<seq<byte>, IoError>))
    requires n > 0
    ensures r.1.Success? <==> 0 <= off && off + n <= |data|
    ensures r.1.Success? ==> r.1.value == data[off..off + n] && r.0 == n
    ensures r.1.Failure? ==> r.0 < n
    ensures r.1.Failure? && off < 0 ==> r == (0, Failure(NegativeOffset))
    ensures r.1.Failure? && off >= 0 ==> r.1.error == EOF && r.0 == if off < |data| then |data| - off else 0
  {
    if off < 0 then (0, Failure(NegativeOffset))
    else if off + n <= |data| then (n, Success(data[off..off + n]))
    else if off < |data| then (|data| - off, Failure(EOF))
    else (0, Failure(EOF))
  }

  /** How many of want bytes can still be copied from the cursor. */
  function Available(data: seq<byte>, pos: nat, want: int): (c: nat)
    ensures want <= 0 ==> c == 0
    ensures want > 0 ==> c <= want && (c < want <==> pos + want > |data|)
    ensures want > 0 && c < want ==> pos + c == if pos < |data| then |data| else pos
  {
    if want <= 0 || pos >= |data| then 0
    else if pos + want <= |data| then want
    else |data| - pos
  }

  /** `discard(r, n)`: the cursor after skipping n bytes and the error, if any.
      A working seeker moves the cursor n-1 bytes, possibly past the end, and
      `io.CopyN` then copies the remaining byte, so a truncated stream is
      still detected. */
  function Skip(src: Source, pos: nat, n: int): (r: (nat, Option<IoError>))
  {
    if n > 1 && src.seeker == SeekFailsAfterProbe then (pos, Some(SeekError))
    else
      var seekSkipped: nat := if n > 1 && src.seeker == Seeks then n - 1 else 0;
      var p := pos + seekSkipped;
      var copied := Available(src.data, p, n - seekSkipped);
      (p + copied, if copied < n - seekSkipped then
                     (if seekSkipped + copied < n then Some(UnexpectedEOF) else Some(EOF))
                   else None)
  }

  /** discard succeeds exactly when n bytes are left behind the cursor, and
      then leaves the cursor n bytes further; a short stream is reported as
      UnexpectedEOF, never as a bare EOF. */
  lemma {:induction false} SkipSpec(src: Source, pos: nat, n: int)
    requires !(n > 1 && src.seeker == SeekFailsAfterProbe)
    ensures Skip(src, pos, n).1.None? <==> n <= 0 || pos + n <= |src.data|
    ensures Skip(src, pos, n).1.None? && n > 0 ==> Skip(src, pos, n).0 == pos + n
    ensures Skip(src, pos, n).1.Some? ==> Skip(src, pos, n).1 == Some(UnexpectedEOF)
  {
  }

  /** Bytes to skip before the next header: the previous payload and one pad
      byte when `(offset+fileSize) % 2 == 1`, with Go's truncated remainder. */
  function SkipCount(offset: int, fileSize: int): (n: int)
    ensures n == fileSize || n == fileSize + 1
    ensures n == fileSize + 1 <==> offset + fileSize >= 0 && (offset + fileSize) % 2 == 1
    ensures offset + fileSize >= 0 ==> (offset + n) % 2 == 0
  {
    if GoRem(offset + fileSize, 2) == 1 then fileSize + 1 else fileSize
  }

  // ---------------------------------------------------------------------------
  // newHeader

  /** A payload of the source seen through an `io.SectionReader`: where it
      starts and how many bytes it claims. */
  datatype Section = Section(start: int, length: int)

  /** What reading the section to its end yields: the source bytes of
      [start, start+length), cut at the end of the source. */
  function View(data: seq<byte>, sec: Section): (v: seq<byte>)
    requires sec.start >= 0
    ensures sec.length >= 0 && sec.start + sec.length <= |data| ==> v == data[sec.start..sec.start + sec.length]
    ensures |v| <= if sec.length < 0 then 0 else sec.length
  {
    if sec.length <= 0 || sec.start >= |data| then []
    else if sec.start + sec.length <= |data| then data[sec.start..sec.start + sec.length]
    else data[sec.start..]
  }

  /** reader.go's own Header: ids are Go ints holding 32-bit values, and it
      carries the section of its payload in positioned mode. */
  datatype Entry = Entry(name: seq<byte>, modTime: int64, uid: int32, gid: int32, mode: uint32, size: int64,
                         section: Option<Section>)

  /** `newHeader`: the shared decoding at 32-bit ids. The ids keep their
      sign, as Go ints holding 32-bit values, and the mode goes through
      `fs.FileMode`, a uint32. */
  function NewHeader(buf: seq<byte>): Decoded<Entry>
    requires |buf| >= 58
  {
    var d := DecodeFields(buf, 32);
    DecodeRanges(buf, 32);
    var f := d.header;
    Decoded(Entry(f.name, f.modTime, f.uid, f.gid, Uint32(f.mode), f.size, None), d.errors)
  }

  /** newHeader reads the same fields as unmarshalHeader wherever the ids are
      non-negative, and reports the same errors; a negative id, which
      unmarshalHeader would wrap to 32 bits, is kept as it is. */
  lemma {:induction false} NewHeaderAgrees(buf: seq<byte>)
    requires |buf| >= 58
    ensures var e, u := NewHeader(buf), UnmarshalHeader(buf);
      && e.header.name == u.header.name && e.header.modTime == u.header.modTime
      && e.header.mode == u.header.mode && e.header.size == u.header.size && e.header.section.None?
      && e.errors == u.errors
      && (e.header.uid >= 0 ==> e.header.uid == u.header.uid)
      && (e.header.gid >= 0 ==> e.header.gid == u.header.gid)
      && (e.header.uid < 0 ==> u.header.uid == e.header.uid + 0x1_0000_0000)
      && (e.header.gid < 0 ==> u.header.gid == e.header.gid + 0x1_0000_0000)
  {
    DecodeFieldsSpec(buf, 32);
    DecodeWidths(buf);
  }

  /** The id width makes no difference to the decoding: the fields and the
      errors are the same at 32 and at 64 bits. */
  lemma {:induction false} DecodeWidths(buf: seq<byte>)
    requires |buf| >= 58
    ensures DecodeFields(buf, 32) == DecodeFields(buf, 64)
  {
    WidthsUpTo(buf, |Columns|);
  }

  /** The first n columns fill and join the same at either id width. */
  lemma {:induction false} WidthsUpTo(buf: seq<byte>, n: nat)
    requires |buf| >= 58 && n <= |Columns|
    ensures FillFrom(buf, 32, n) == FillFrom(buf, 64, n)
    ensures JoinedFrom(buf, 32, n) == JoinedFrom(buf, 64, n)
    decreases n
  {
    if n > 0 {
      WidthsUpTo(buf, n - 1);
      match Columns[n - 1]
      case NameColumn =>
      case EndColumn =>
      case NumberColumn(tag) =>
        if tag == OwnerField || tag == GroupField {
          IdWidths(buf, tag);
        }
    }
  }

  /** An id field is six bytes wide, too narrow for a range error at either
      width, so it parses the same at 32 and at 64 bits. */
  lemma {:induction false} IdWidths(buf: seq<byte>, tag: FieldTag)
    requires |buf| >= 58
    requires tag == OwnerField || tag == GroupField
    ensures ParseField(buf, tag, 64) == ParseField(buf, tag, 32)
  {
    var text := TrimRightBlanks(Field(buf, SlotOf(tag)));
    NoRangeError(text, 10, 32);
    NoRangeError(text, 10, 64);
  }

  /** A marshalled representable header reads back through newHeader. */
  lemma {:induction false} NewHeaderMarshal(h: Header)
    requires Representable(h)
    ensures h.uid < 0x8000_0000 && h.gid < 0x8000_0000
    ensures Marshal(h).Success?
    ensures NewHeader(Marshal(h).value) == Decoded(ToEntry(h, None), [])
  {
    IdsFit(h);
    DecodeMarshalFields(h, 32);
    DecodeMarshalClean(h, 32);
  }

  /** The header written from h, as reader.go's record carrying section s. */
  function ToEntry(h: Header, s: Option<Section>): (e: Entry)
    requires h.uid < 0x8000_0000 && h.gid < 0x8000_0000
    ensures e.name == h.name && e.size == h.size && e.mode == h.mode && e.section == s
    ensures e.uid == h.uid && e.gid == h.gid && e.modTime == h.modTime
  {
    Entry(h.name, h.modTime, h.uid, h.gid, h.mode, h.size, s)
  }

  // ---------------------------------------------------------------------------
  // Next, as a function of the reader's state

  /** The error kinds `Next` returns, keeping apart the ones it wraps. */
  datatype NextError =
    | Io(cause: IoError)                         // returned as is: the final EOF, or discard's error
    | SignatureUnreadable(cause: IoError)        // "could not read signature: ..."
    | BadSignature(got: seq<byte>)               // "expected signature ..."
    | HeaderUnreadable(cause: IoError)           // "could not read header: ..."
    | HeaderMalformed(errors: seq<HeaderError>)  // "could not parse header: ..."

  /** The reader's fields: the stream cursor, offset, fileSize and the sticky error. */
  datatype State = State(pos: nat, offset: int, fileSize: int, err: Option<NextError>)

  const Initial := State(0, 0, 0, None)

  /** The signature check of the first call. */
  function ReadSignature(src: Source, st: State): (r: State)
    requires st.offset == 0 && st.err.None?
    ensures r.err.None? <==> |src.data| >= st.pos + 8 && src.data[st.pos..st.pos + 8] == Signature
    ensures r.err.None? ==> r == State(st.pos + 8, 8, st.fileSize, None)
    ensures r.err.Some? ==> r.err.value.SignatureUnreadable? || r.err.value.BadSignature?
    ensures (r.err.Some? && r.err.value.SignatureUnreadable?) <==> |src.data| < st.pos + 8
    ensures r.err.Some? && r.err.value.SignatureUnreadable? ==>
      r.offset == 0 && (r.err.value.cause == EOF <==> st.pos >= |src.data|)
    ensures r.err.Some? && r.err.value.BadSignature? ==>
      r == State(st.pos + 8, 8, st.fileSize, Some(BadSignature(src.data[st.pos..st.pos + 8])))
  {
    match ReadFull(src.data, st.pos, |Signature|)
    case (p, Failure(e)) => State(p, 0, st.fileSize, Some(SignatureUnreadable(e)))
    case (p, Success(buf)) =>
      if buf != Signature then State(p, 8, st.fileSize, Some(BadSignature(buf)))
      else State(p, 8, st.fileSize, None)
  }

  /** Where the next header starts, given the offset and the previous
      payload's size: past the payload and its pad byte. Positioned mode adds
      the skip count even when it is negative (a malformed negative size),
      sequential mode only when it is positive. */
  function HeaderStart(positioned: bool, offset: int, fileSize: int): (start: int)
    ensures fileSize >= 0 ==> start == offset + SkipCount(offset, fileSize)
    ensures fileSize >= 0 && offset >= 0 ==> start % 2 == 0 && offset + fileSize <= start <= offset + fileSize + 1
    ensures !positioned ==> start >= offset
  {
    var n := SkipCount(offset, fileSize);
    if positioned || n > 0 then offset + n else offset
  }

  /** Skipping the previous payload and reading the 60 header bytes, in either
      mode. On success the state's offset is where the header starts; in
      sequential mode the cursor has moved over the skipped bytes and the header. */
  function ReadHeaderBytes(src: Source, st: State): (r: (State, Result<seq<byte>, NextError>))
    requires st.err.None?
    ensures r.1.Success? ==> |r.1.value| == HeaderSize && r.0.err.None? && r.0.fileSize == st.fileSize
    ensures r.1.Success? ==> r.0.offset == HeaderStart(src.positioned, st.offset, st.fileSize)
    ensures r.1.Success? && src.positioned ==>
      0 <= r.0.offset && r.0.offset + HeaderSize <= |src.data| && r.0.pos == st.pos
      && r.1.value == src.data[r.0.offset..r.0.offset + HeaderSize]
    ensures r.1.Success? && !src.positioned ==>
      var p := st.pos + (r.0.offset - st.offset);
      p + HeaderSize <= |src.data| && r.0.pos == p + HeaderSize && r.1.value == src.data[p..p + HeaderSize]
    ensures r.1.Failure? ==> r.0.err == Some(r.1.error) && r.0.fileSize == st.fileSize
  {
    var toDiscard := SkipCount(st.offset, st.fileSize);
    if src.positioned then
      var off := st.offset + toDiscard;
      match ReadAt(src.data, off, HeaderSize)
      case (n, Failure(e)) =>
        var err := if e == EOF && n > 0 then HeaderUnreadable(UnexpectedEOF)
                   else if e == EOF then Io(EOF)
                   else HeaderUnreadable(e);
        (State(st.pos, off, st.fileSize, Some(err)), Failure(err))
      case (_, Success(buf)) => (State(st.pos, off, st.fileSize, None), Success(buf))
    else
      var (p, skipErr) := if toDiscard > 0 then Skip(src, st.pos, toDiscard) else (st.pos, None);
      if skipErr.Some? then (State(p, st.offset, st.fileSize, Some(Io(skipErr.value))), Failure(Io(skipErr.value)))
      else
        SkipSpec(src, st.pos, toDiscard);
        var off := if toDiscard > 0 then st.offset + toDiscard else st.offset;
        match ReadFull(src.data, p, HeaderSize)
        case (q, Failure(e)) =>
          var err := if e == EOF then Io(EOF) else HeaderUnreadable(e);
          (State(q, off, st.fileSize, Some(err)), Failure(err))
        case (q, Success(buf)) => (State(q, off, st.fileSize, None), Success(buf))
  }

  /** In positioned mode the header read succeeds exactly when the 60 bytes
      at the header's start exist; a start at or past the end is the clean
      end of the archive, a header cut short is an unexpected EOF. */
  lemma {:induction false} PositionedOutcome(src: Source, st: State)
    requires st.err.None? && src.positioned
    ensures var start, r := HeaderStart(true, st.offset, st.fileSize), ReadHeaderBytes(src, st).1;
      (r.Success? <==> 0 <= start && start + HeaderSize <= |src.data|)
      && (r == Failure(Io(EOF)) <==> |src.data| <= start)
      && (r == Failure(HeaderUnreadable(UnexpectedEOF)) <==> 0 <= start < |src.data| < start + HeaderSize)
      && (r == Failure(HeaderUnreadable(NegativeOffset)) <==> start < 0)
  {
  }

  /** In sequential mode the skip and the read succeed exactly when the
      stream holds the skipped bytes and a whole header after them. The
      stream ending inside the skip is an unexpected EOF, ending where the
      header should start is the clean end, and ending inside the header is
      a wrapped unexpected EOF. */
  lemma {:induction false} SequentialOutcome(src: Source, st: State)
    requires st.err.None? && !src.positioned
    ensures var n, r := SkipCount(st.offset, st.fileSize), ReadHeaderBytes(src, st).1;
      var p := st.pos + (HeaderStart(false, st.offset, st.fileSize) - st.offset);
      var seekFails := n > 1 && src.seeker == SeekFailsAfterProbe;
      var cutInSkip := !seekFails && n > 0 && p > |src.data|;
      (r.Success? <==> !seekFails && p + HeaderSize <= |src.data|)
      && (r == Failure(Io(SeekError)) <==> seekFails)
      && (r == Failure(Io(UnexpectedEOF)) <==> cutInSkip)
      && (r == Failure(Io(EOF)) <==> !seekFails && !cutInSkip && |src.data| <= p)
      && (r == Failure(HeaderUnreadable(UnexpectedEOF)) <==> !seekFails && p < |src.data| < p + HeaderSize)
  {
    var n := SkipCount(st.offset, st.fileSize);
    if n > 0 && !(n > 1 && src.seeker == SeekFailsAfterProbe) {
      SkipSpec(src, st.pos, n);
    }
  }

  /** Decoding the header bytes once offset has moved past them: a malformed
      header latches its errors, otherwise fileSize becomes its size and, in
      positioned mode, the entry carries the section that starts there. */
  function DecodeStep(src: Source, st: State, buf: seq<byte>): (r: (State, Result<Entry, NextError>))
    requires |buf| == HeaderSize
    ensures r.0.pos == st.pos && r.0.offset == st.offset + HeaderSize
    ensures r.1.Failure? <==> NewHeader(buf).errors != []
    ensures r.1.Failure? ==> r.1.error == HeaderMalformed(NewHeader(buf).errors) && r.0.err == Some(r.1.error)
                             && r.0.fileSize == st.fileSize
    ensures r.1.Success? ==>
      r.0.err.None? && r.0.fileSize == r.1.value.size
      && r.1.value == NewHeader(buf).header.(section := if src.positioned then Some(Section(r.0.offset, r.1.value.size)) else None)
  {
    var off := st.offset + HeaderSize;
    var d := NewHeader(buf);
    if d.errors != [] then
      (State(st.pos, off, st.fileSize, Some(HeaderMalformed(d.errors))), Failure(HeaderMalformed(d.errors)))
    else
      var section := if src.positioned then Some(Section(off, d.header.size)) else None;
      (State(st.pos, off, d.header.size, None), Success(d.header.(section := section)))
  }

  /** The offset before the header step: 8 once the signature is read. */
  function AfterSignature(offset: int): (o: int)
    ensures offset != 0 ==> o == offset
    ensures offset == 0 ==> o == |Signature|
  {
    if offset == 0 then |Signature| else offset
  }

  /** Where a step decodes its header from: past the previous payload and its pad. */
  function NextStart(src: Source, st: State): int {
    HeaderStart(src.positioned, AfterSignature(st.offset), st.fileSize)
  }

  /** The state once the signature and the next header are read, before
      the header is decoded: offset is the header's start, and in sequential
      mode the cursor is past the header. */
  function HeaderReadState(src: Source, st: State): State
    requires NextStart(src, st) >= 0
  {
    var start := NextStart(src, st);
    State(if !src.positioned then start + HeaderSize else if st.offset == 0 then st.pos + 8 else st.pos,
          start, st.fileSize, None)
  }

  /** One call of `Next`. */
  function Step(src: Source, st: State): (r: (State, Result<Entry, NextError>))
    ensures st.err.Some? ==> r == (st, Failure(st.err.value))
    ensures st.err.None? && r.1.Failure? ==> r.0.err == Some(r.1.error)
    ensures r.1.Success? && st.offset == 0 ==> st.pos + 8 <= |src.data| && src.data[st.pos..st.pos + 8] == Signature
    ensures r.1.Success? ==>
      r.0.err.None? && r.0.fileSize == r.1.value.size
      && r.0.offset == HeaderStart(src.positioned, AfterSignature(st.offset), st.fileSize) + HeaderSize
      && (r.1.value.section.Some? <==> src.positioned)
      && (src.positioned ==> r.1.value.section == Some(Section(r.0.offset, r.1.value.size)))
  {
    if st.err.Some? then (st, Failure(st.err.value))
    else
      var s1 := if st.offset == 0 then ReadSignature(src, st) else st;
      if s1.err.Some? then (s1, Failure(s1.err.value))
      else
        var (s2, bytes) := ReadHeaderBytes(src, s1);
        if bytes.Failure? then (s2, Failure(bytes.error))
        else DecodeStep(src, s2, bytes.value)
  }

  /** k successive calls of `Next`: the final state and every result. */
  function Run(src: Source, st: State, k: nat): (r: (State, seq<Result<Entry, NextError>>))
    ensures |r.1| == k
    decreases k
  {
    if k == 0 then (st, [])
    else
      var (s1, x) := Step(src, st);
      var (s2, xs) := Run(src, s1, k - 1);
      (s2, [x] + xs)
  }

  /** The sticky error: once set, every later call returns it and nothing
      changes, the cursor included. */
  lemma {:induction false} StaysFailed(src: Source, st: State, k: nat)
    requires st.err.Some?
    ensures Run(src, st, k).0 == st
    ensures forall i :: 0 <= i < k ==> Run(src, st, k).1[i] == Failure(st.err.value)
    decreases k
  {
    if k > 0 {
      StaysFailed(src, st, k - 1);
    }
  }

  /** A failing call fails every call after it with the same error, the
      clean end of the archive included. */
  lemma {:induction false} FailureIsFinal(src: Source, st: State, k: nat)
    requires Step(src, st).1.Failure?
    ensures forall i :: 0 <= i < k ==> Run(src, Step(src, st).0, k).1[i] == Step(src, st).1
  {
    StaysFailed(src, Step(src, st).0, k);
  }

  /** A stream the reader handles without a seek failure. */
  predicate Readable(src: Source) {
    !src.positioned ==> src.seeker != SeekFailsAfterProbe
  }

  /** A state with no error from which a step reads on: in sequential mode
      the cursor is at the offset, and the signature is ahead at offset 0. */
  predicate ReadyAt(src: Source, st: State) {
    && st.err.None? && st.offset >= 0 && st.fileSize >= 0 && Readable(src)
    && (!src.positioned ==> st.pos == st.offset)
    && (st.offset == 0 ==> st.pos + 8 <= |src.data| && src.data[st.pos..st.pos + 8] == Signature)
  }

  /** The record at the state's next start lies inside the stream and
      decodes cleanly to e. */
  predicate HeaderAt(src: Source, st: State, e: Entry) {
    && 0 <= NextStart(src, st) && NextStart(src, st) + HeaderSize <= |src.data|
    && NewHeader(src.data[NextStart(src, st)..NextStart(src, st) + HeaderSize]) == Decoded(e, [])
  }

  /** A header that decodes cleanly at the next start is returned: offset
      moves past it, fileSize becomes its size, and in positioned mode the
      entry's section starts right after it. */
  lemma {:induction false} StepReads(src: Source, st: State, e: Entry)
    requires st.err.None? && st.offset >= 0 && st.fileSize >= 0
    requires !src.positioned ==> st.pos == st.offset && src.seeker != SeekFailsAfterProbe
    requires st.offset == 0 ==> st.pos + 8 <= |src.data| && src.data[st.pos..st.pos + 8] == Signature
    requires HeaderAt(src, st, e)
    ensures var end := NextStart(src, st) + HeaderSize;
      var pos := if !src.positioned then end else if st.offset == 0 then st.pos + 8 else st.pos;
      var section := if src.positioned then Some(Section(end, e.size)) else None;
      Step(src, st) == (State(pos, end, e.size, None), Success(e.(section := section)))
  {
    var start := NextStart(src, st);
    var hs := HeaderReadState(src, st);
    assert hs.pos == (if !src.positioned then start + HeaderSize else if st.offset == 0 then st.pos + 8 else st.pos);
    assert hs.offset == start;
    StepDecodes(src, st);
    DecodeStepClean(src, hs, src.data[start..start + HeaderSize], e);
  }

  /** With the next header inside the stream, a step is the decoding of its bytes. */
  lemma {:induction false} StepDecodes(src: Source, st: State)
    requires st.err.None? && st.offset >= 0 && st.fileSize >= 0
    requires !src.positioned ==> st.pos == st.offset && src.seeker != SeekFailsAfterProbe
    requires st.offset == 0 ==> st.pos + 8 <= |src.data| && src.data[st.pos..st.pos + 8] == Signature
    requires 0 <= NextStart(src, st) && NextStart(src, st) + HeaderSize <= |src.data|
    ensures Step(src, st) == DecodeStep(src, HeaderReadState(src, st), src.data[NextStart(src, st)..NextStart(src, st) + HeaderSize])
  {
    var s1 := if st.offset == 0 then ReadSignature(src, st) else st;
    assert s1 == State(if st.offset == 0 then st.pos + 8 else st.pos, AfterSignature(st.offset), st.fileSize, None);
    var start := NextStart(src, st);
    HeaderBytesAt(src, s1, start);
    assert ReadHeaderBytes(src, s1) == (HeaderReadState(src, st), Success(src.data[start..start + HeaderSize]));
    StepOfHeader(src, st, s1, HeaderReadState(src, st), src.data[start..start + HeaderSize]);
  }

  /** A step whose signature and header reads succeeded decodes those bytes. */
  lemma {:induction false} StepOfHeader(src: Source, st: State, s1: State, s2: State, buf: seq<byte>)
    requires st.err.None? && s1.err.None? && |buf| == HeaderSize
    requires s1 == if st.offset == 0 then ReadSignature(src, st) else st
    requires ReadHeaderBytes(src, s1) == (s2, Success(buf))
    ensures Step(src, st) == DecodeStep(src, s2, buf)
  {
  }

  /** Decoding a header that parses cleanly. */
  lemma {:induction false} DecodeStepClean(src: Source, st: State, buf: seq<byte>, e: Entry)
    requires |buf| == HeaderSize && NewHeader(buf) == Decoded(e, [])
    ensures DecodeStep(src, st, buf) ==
      (State(st.pos, st.offset + HeaderSize, e.size, None),
       Success(e.(section := if src.positioned then Some(Section(st.offset + HeaderSize, e.size)) else None)))
  {
  }

  /** The skip and header read from a state whose next header lies wholly
      inside the stream. */
  lemma {:induction false} HeaderBytesAt(src: Source, st: State, start: int)
    requires st.err.None? && st.fileSize >= 0
    requires !src.positioned ==> st.pos == st.offset && src.seeker != SeekFailsAfterProbe
    requires start == HeaderStart(src.positioned, st.offset, st.fileSize)
    requires 0 <= start && start + HeaderSize <= |src.data|
    ensures ReadHeaderBytes(src, st) ==
      (State(if src.positioned then st.pos else start + HeaderSize, start, st.fileSize, None),
       Success(src.data[start..start + HeaderSize]))
  {
    if src.positioned {
      PositionedOutcome(src, st);
    } else {
      SequentialOutcome(src, st);
    }
  }

  /** The step after a payload that ends where the stream ends: the clean
      end of the archive, except in sequential mode when a pad byte is owed
      and missing. */
  lemma {:induction false} StepAtEnd(src: Source, st: State)
    requires st.err.None? && st.offset > 0 && st.fileSize >= 0
    requires !src.positioned ==> st.pos == st.offset && src.seeker != SeekFailsAfterProbe
    requires st.offset + st.fileSize == |src.data|
    ensures Step(src, st).1 == Failure(if !src.positioned && |src.data| % 2 == 1 then Io(UnexpectedEOF) else Io(EOF))
  {
    if src.positioned {
      PositionedOutcome(src, st);
    } else {
      SequentialOutcome(src, st);
    }
  }

  // ---------------------------------------------------------------------------
  // The Reader object

  /** `ar.Reader`: the stream with its cursor, and the fields `Next` updates. */
  class Reader {
    const src: Source
    var pos: nat
    var offset: int
    var fileSize: int
    var err: Option<NextError>

    /** The fields as a state value. */
    function Fields(): (st: State)
      reads this
      ensures st.pos == pos && st.offset == offset && st.fileSize == fileSize && st.err == err
    {
      State(pos, offset, fileSize, err)
    }

    /** `NewReader`: a reader at the start of the stream, with no error. */
    constructor (src: Source)
      ensures this.src == src && Fields() == Initial
    {
      this.src := src;
      pos := 0;
      offset := 0;
      fileSize := 0;
      err := None;
    }

    /** `discard(ar.r, n)`: the probe and the seek, then `io.CopyN` into
        `io.Discard`, one byte at a time. */
    method Discard(n: int) returns (e: Option<IoError>)
      modifies this`pos
      ensures (pos, e) == Skip(src, old(pos), n)
      ensures offset == old(offset) && fileSize == old(fileSize) && err == old(err)
    {
      var seekSkipped: nat := 0;
      if n > 1 && src.seeker != NotSeeker && src.seeker != ProbeFails {
        if src.seeker == SeekFailsAfterProbe {
          return Some(SeekError);
        }
        pos := pos + (n - 1);
        seekSkipped := n - 1;
      }
      var copied: nat := 0;
      while copied < n - seekSkipped && pos < |src.data|
        invariant copied <= if n - seekSkipped > 0 then n - seekSkipped else 0
        invariant pos == old(pos) + seekSkipped + copied
        invariant pos <= |src.data| || copied == 0
        decreases n - seekSkipped - copied
      {
        pos := pos + 1;
        copied := copied + 1;
      }
      assert copied == Available(src.data, old(pos) + seekSkipped, n - seekSkipped);
      if copied < n - seekSkipped {
        e := if seekSkipped + copied < n then Some(UnexpectedEOF) else Some(EOF);
      } else {
        e := None;
      }
    }

    /** The signature read of the first call. */
    method ReadSignatureOnce()
      requires offset == 0 && err.None?
      modifies this`pos, this`offset, this`err
      ensures Fields() == ReadSignature(src, old(Fields()))
    {
      var (p, sig) := ReadFull(src.data, pos, |Signature|);
      pos := p;
      if sig.Failure? {
        err := Some(SignatureUnreadable(sig.error));
        return;
      }
      offset := offset + |Signature|;
      if sig.value != Signature {
        err := Some(BadSignature(sig.value));
      }
    }

    /** The skip and the header read, in either mode. */
    method ReadHeader() returns (res: Result<seq<byte>, NextError>)
      requires err.None?
      modifies this`pos, this`offset, this`err
      ensures (Fields(), res) == ReadHeaderBytes(src, old(Fields()))
    {
      var toDiscard := fileSize;
      if GoRem(offset + toDiscard, 2) == 1 {
        toDiscard := toDiscard + 1;
      }
      assert toDiscard == SkipCount(offset, fileSize);
      if src.positioned {
        offset := offset + toDiscard;
        var (n, read) := ReadAt(src.data, offset, HeaderSize);
        if read.Failure? {
          var e := read.error;
          if e == EOF && n > 0 {
            e := UnexpectedEOF;
          }
          err := if e != EOF then Some(HeaderUnreadable(e)) else Some(Io(EOF));
          return Failure(err.value);
        }
        return Success(read.value);
      }
      if toDiscard > 0 {
        var e := Discard(toDiscard);
        if e.Some? {
          err := Some(Io(e.value));
          return Failure(Io(e.value));
        }
        offset := offset + toDiscard;
      }
      var (q, read) := ReadFull(src.data, pos, HeaderSize);
      pos := q;
      if read.Failure? {
        err := if read.error == EOF then Some(Io(EOF)) else Some(HeaderUnreadable(read.error));
        return Failure(err.value);
      }
      return Success(read.value);
    }

    /** `Next`: one step of the state machine, reading from the stream. */
    method Next() returns (r: Result<Entry, NextError>)
      modifies this
      ensures (Fields(), r) == Step(src, old(Fields()))
    {
      if err.Some? {
        return Failure(err.value);
      }
      if offset == 0 {
        ReadSignatureOnce();
        if err.Some? {
          return Failure(err.value);
        }
      }
      var headerBuf := ReadHeader();
      if headerBuf.Failure? {
        return Failure(headerBuf.error);
      }
      offset := offset + HeaderSize;
      var d := NewHeader(headerBuf.value);
      if d.errors != [] {
        err := Some(HeaderMalformed(d.errors));
        return Failure(err.value);
      }
      fileSize := d.header.size;
      var h := d.header;
      if src.positioned {
        h := h.(section := Some(Section(offset, h.size)));
      }
      return Success(h);
    }
  }
}
