/** The ar entry header (deb/ar/header.go): a fixed 60-byte ASCII record with
    left-justified, blank-padded fields and the terminator "`\n".

      bytes [0,16)   name
            [16,28)  modification time, decimal seconds
            [28,34)  owner id, decimal
            [34,40)  group id, decimal
            [40,48)  file mode, octal
            [48,58)  payload size, decimal
            [58,60)  "`\n"
 */
module ArHeader {
  import opened Wrappers
  import opened Ascii

  /** The archive signature, shared by the reader and the writer. */
  const Signature: seq<byte> := "!<arch>\n"

  /** The two bytes that close every header record. */
  const HeaderEnd: seq<byte> := "`\n"

  const HeaderSize: nat := 60

  /** header.go's Header without its SectionReader, which marshal ignores and
      which the writer receives separately. ModTime is in seconds. */
  datatype Header = Header(name: seq<byte>, modTime: int64, uid: uint32, gid: uint32, mode: uint32, size: int64)

  datatype Slot = Slot(start: nat, width: nat)

  const NameSlot := Slot(0, 16)

  /** The five numeric fields, in the order they are parsed and reported. */
  datatype FieldTag = ModTimeField | OwnerField | GroupField | ModeField | SizeField

  function SlotOf(tag: FieldTag): (s: Slot)
    ensures s.start + s.width <= 58
  {
    match tag
    case ModTimeField => Slot(16, 12)
    case OwnerField => Slot(28, 6)
    case GroupField => Slot(34, 6)
    case ModeField => Slot(40, 8)
    case SizeField => Slot(48, 10)
  }

  /** The mode is octal, every other number decimal. */
  function BaseOf(tag: FieldTag): nat {
    if tag == ModeField then 8 else 10
  }

  /** The bit size a field is parsed with: the owner and group ids use the
      decoder's idBits, the other fields 64. */
  function BitsOf(tag: FieldTag, idBits: nat): nat {
    if tag == OwnerField || tag == GroupField then idBits else 64
  }

  function Field(buf: seq<byte>, slot: Slot): (f: seq<byte>)
    requires slot.start + slot.width <= |buf|
    ensures |f| == slot.width
  {
    buf[slot.start..slot.start + slot.width]
  }

  // ---------------------------------------------------------------------------
  // Encoding

  /** A field holds text left-justified and blank-padded, cut at the field's end. */
  predicate Justified(field: seq<byte>, text: seq<byte>) {
    forall i | 0 <= i < |field| :: field[i] == if i < |text| then text[i] else ' '
  }

  /** `copy(buf[a:b], text)` into a blank buffer: at most width bytes of text are kept. */
  function Fit(text: seq<byte>, width: nat): (f: seq<byte>)
    ensures |f| == width && Justified(f, text)
  {
    if |text| >= width then text[..width] else text + Spaces(width - |text|)
  }

  /** The decimal or octal rendering each numeric field receives. */
  function Rendering(h: Header, tag: FieldTag): seq<byte> {
    match tag
    case ModTimeField => FormatInt(h.modTime, 10)
    case OwnerField => FormatNat(h.uid, 10)
    case GroupField => FormatNat(h.gid, 10)
    case ModeField => FormatNat(h.mode, 8)
    case SizeField => FormatInt(h.size, 10)
  }

  /** Byte k of a field holding text: the text's byte, or the buffer's blank. */
  function Cell(text: seq<byte>, k: nat): byte {
    if k < |text| then text[k] else ' '
  }

  /** Byte i of the 58-byte blank buffer after the six `copy` calls of marshal. */
  function RecordByte(h: Header, i: nat): byte
    requires i < 58
  {
    if i < 16 then Cell(h.name, i)
    else if i < 28 then Cell(Rendering(h, ModTimeField), i - 16)
    else if i < 34 then Cell(Rendering(h, OwnerField), i - 28)
    else if i < 40 then Cell(Rendering(h, GroupField), i - 34)
    else if i < 48 then Cell(Rendering(h, ModeField), i - 40)
    else Cell(Rendering(h, SizeField), i - 48)
  }

  datatype MarshalError = NameTooLong(name: seq<byte>)

  /** `Header.marshal`. The only error is a name over 16 bytes; a number too
      long for its field is cut silently. */
  function Marshal(h: Header): (r: Result<seq<byte>, MarshalError>)
    ensures r.Failure? <==> |h.name| > 16
    ensures r.Failure? ==> r.error == NameTooLong(h.name)
    ensures r.Success? ==> |r.value| == HeaderSize && r.value[58..] == HeaderEnd
  {
    if |h.name| > 16 then Failure(NameTooLong(h.name))
    else
      var buf := seq(58, i requires 0 <= i < 58 => RecordByte(h, i)) + HeaderEnd;
      assert buf[58..] == HeaderEnd;
      Success(buf)
  }

  /** Each field of a marshalled record holds its text left-justified and
      blank-padded, cut at the end of its slot. */
  lemma {:induction false} MarshalJustified(h: Header)
    requires |h.name| <= 16
    ensures Justified(Field(Marshal(h).value, NameSlot), h.name)
    ensures forall tag :: Justified(Field(Marshal(h).value, SlotOf(tag)), Rendering(h, tag))
  {
  }

  /** The record as the concatenation of its fields: each text is copied to
      the front of its blank slot and cut at the slot's end. */
  lemma {:induction false} MarshalLayout(h: Header)
    requires |h.name| <= 16
    ensures Marshal(h) == Success(Fit(h.name, 16) + Fit(Rendering(h, ModTimeField), 12)
      + Fit(Rendering(h, OwnerField), 6) + Fit(Rendering(h, GroupField), 6)
      + Fit(Rendering(h, ModeField), 8) + Fit(Rendering(h, SizeField), 10) + HeaderEnd)
  {
    var buf := Marshal(h).value;
    MarshalJustified(h);
    assert Justified(Field(buf, SlotOf(ModTimeField)), Rendering(h, ModTimeField));
    assert Justified(Field(buf, SlotOf(OwnerField)), Rendering(h, OwnerField));
    assert Justified(Field(buf, SlotOf(GroupField)), Rendering(h, GroupField));
    assert Justified(Field(buf, SlotOf(ModeField)), Rendering(h, ModeField));
    assert Justified(Field(buf, SlotOf(SizeField)), Rendering(h, SizeField));
    LayoutOf(buf, h);
  }

  /** A record whose slots hold the header's texts is their concatenation. */
  lemma {:induction false} LayoutOf(buf: seq<byte>, h: Header)
    requires |buf| == HeaderSize && buf[58..] == HeaderEnd
    requires Justified(Field(buf, NameSlot), h.name)
    requires Justified(Field(buf, SlotOf(ModTimeField)), Rendering(h, ModTimeField))
    requires Justified(Field(buf, SlotOf(OwnerField)), Rendering(h, OwnerField))
    requires Justified(Field(buf, SlotOf(GroupField)), Rendering(h, GroupField))
    requires Justified(Field(buf, SlotOf(ModeField)), Rendering(h, ModeField))
    requires Justified(Field(buf, SlotOf(SizeField)), Rendering(h, SizeField))
    ensures buf == Fit(h.name, 16) + Fit(Rendering(h, ModTimeField), 12)
      + Fit(Rendering(h, OwnerField), 6) + Fit(Rendering(h, GroupField), 6)
      + Fit(Rendering(h, ModeField), 8) + Fit(Rendering(h, SizeField), 10) + HeaderEnd
  {
    FitIsSlot(buf, NameSlot, h.name);
    FitIsSlot(buf, SlotOf(ModTimeField), Rendering(h, ModTimeField));
    FitIsSlot(buf, SlotOf(OwnerField), Rendering(h, OwnerField));
    FitIsSlot(buf, SlotOf(GroupField), Rendering(h, GroupField));
    FitIsSlot(buf, SlotOf(ModeField), Rendering(h, ModeField));
    FitIsSlot(buf, SlotOf(SizeField), Rendering(h, SizeField));
    RecordSlices(buf, Fit(h.name, 16), Fit(Rendering(h, ModTimeField), 12),
      Fit(Rendering(h, OwnerField), 6), Fit(Rendering(h, GroupField), 6),
      Fit(Rendering(h, ModeField), 8), Fit(Rendering(h, SizeField), 10));
  }

  lemma {:induction false} RecordSlices(buf: seq<byte>, a: seq<byte>, b: seq<byte>, c: seq<byte>, d: seq<byte>, e: seq<byte>, f: seq<byte>)
    requires |buf| == HeaderSize
    requires buf[0..16] == a && buf[16..28] == b && buf[28..34] == c && buf[34..40] == d
    requires buf[40..48] == e && buf[48..58] == f
    ensures buf == a + b + c + d + e + f + buf[58..]
  {
    assert buf == buf[0..16] + buf[16..28] + buf[28..34] + buf[34..40] + buf[40..48] + buf[48..58] + buf[58..];
  }

  lemma {:induction false} FitIsSlot(buf: seq<byte>, slot: Slot, text: seq<byte>)
    requires slot.start + slot.width <= |buf|
    requires Justified(Field(buf, slot), text)
    ensures Field(buf, slot) == Fit(text, slot.width)
  {
  }

  // ---------------------------------------------------------------------------
  // Decoding

  datatype HeaderError =
    | FieldError(field: FieldTag, cause: NumError)  // "<field name>: <strconv error>"
    | EndCharsError(got: seq<byte>)                 // "expected end chars ..."

  /** A decoded header together with every error found in it; no error means Go's nil. */
  datatype Decoded<H> = Decoded(header: H, errors: seq<HeaderError>)

  /** The values read from a record before conversion to the Go field types. */
  datatype RawFields = RawFields(name: seq<byte>, modTime: int, uid: int, gid: int, mode: int, size: int)

  /** `strings.TrimSuffix(strings.TrimSpace(name), "/")`. */
  function DecodeName(field: seq<byte>): seq<byte> {
    TrimSlash(TrimSpace(field))
  }

  /** The closure `parseInt` of the decoders: only trailing blanks are trimmed. */
  function ParseField(buf: seq<byte>, tag: FieldTag, idBits: nat): (p: Parsed)
    requires |buf| >= 58
    requires idBits == 32 || idBits == 64
    ensures p.err == Some(ErrSyntax) <==> !IsNumeral(TrimRightBlanks(Field(buf, SlotOf(tag))), BaseOf(tag))
    ensures p.err.Some? ==> p.err == Some(ErrSyntax)
    ensures p.err.Some? ==> p.value == 0
    ensures -0x8000_0000_0000_0000 <= p.value < 0x8000_0000_0000_0000
    ensures BitsOf(tag, idBits) == 32 ==> -0x8000_0000 <= p.value < 0x8000_0000
  {
    var text := TrimRightBlanks(Field(buf, SlotOf(tag)));
    NoRangeError(text, BaseOf(tag), BitsOf(tag, idBits));
    ParseInt(text, BaseOf(tag), BitsOf(tag, idBits))
  }

  /** A field that parses holds the value of its numeral, sign included. */
  lemma {:induction false} ParseFieldValue(buf: seq<byte>, tag: FieldTag, idBits: nat)
    requires |buf| >= 58
    requires idBits == 32 || idBits == 64
    ensures var text, p := TrimRightBlanks(Field(buf, SlotOf(tag))), ParseField(buf, tag, idBits);
      p.err.None? ==> IsNumeral(text, BaseOf(tag)) && p.value == NumeralValue(text, BaseOf(tag))
  {
    var text := TrimRightBlanks(Field(buf, SlotOf(tag)));
    assert ParseField(buf, tag, idBits) == ParseInt(text, BaseOf(tag), BitsOf(tag, idBits));
    ParseIntMeaning(text, BaseOf(tag), BitsOf(tag, idBits));
  }

  /** The terminator test `string(buf[58:]) != headerEndChars`, byte by byte. */
  predicate EndsRecord(buf: seq<byte>)
    requires |buf| >= 58
  {
    |buf| == 60 && buf[58] == '`' && buf[59] == '\n'
  }

  lemma {:induction false} EndsRecordSpec(buf: seq<byte>)
    requires |buf| >= 58
    ensures EndsRecord(buf) <==> buf[58..] == HeaderEnd
  {
    if |buf| == 60 {
      assert buf[58..][0] == buf[58] && buf[58..][1] == buf[59];
    } else {
      assert |buf[58..]| != |HeaderEnd|;
    }
  }

  /** The columns of a record in the order the decoders read them. */
  datatype Column = NameColumn | NumberColumn(tag: FieldTag) | EndColumn

  const Columns: seq<Column> := [NameColumn, NumberColumn(ModTimeField), NumberColumn(OwnerField),
                                 NumberColumn(GroupField), NumberColumn(ModeField), NumberColumn(SizeField),
                                 EndColumn]

  /** Where a numeric field's column stands in the record. */
  function ColumnOf(tag: FieldTag): (k: nat)
    ensures 1 <= k < |Columns| - 1 && Columns[k] == NumberColumn(tag)
  {
    match tag
    case ModTimeField => 1
    case OwnerField => 2
    case GroupField => 3
    case ModeField => 4
    case SizeField => 5
  }

  /** What the decoders get from one column: the trimmed name, the result of
      a parse, or the terminator check with the bytes found when it fails. */
  datatype Reading = NameRead(name: seq<byte>) | NumberRead(tag: FieldTag, parsed: Parsed) | EndRead(wrong: Option<seq<byte>>)

  function Read(buf: seq<byte>, col: Column, idBits: nat): Reading
    requires |buf| >= 58
    requires idBits == 32 || idBits == 64
  {
    match col
    case NameColumn => NameRead(DecodeName(Field(buf, NameSlot)))
    case NumberColumn(tag) => NumberRead(tag, ParseField(buf, tag, idBits))
    case EndColumn => EndRead(if EndsRecord(buf) then None else Some(buf[58..]))
  }

  /** A parsed number stored in its field. */
  function Store(f: RawFields, tag: FieldTag, v: int): RawFields {
    match tag
    case ModTimeField => f.(modTime := v)
    case OwnerField => f.(uid := v)
    case GroupField => f.(gid := v)
    case ModeField => f.(mode := v)
    case SizeField => f.(size := v)
  }

  /** What a reading stores into the record. */
  function Absorb(f: RawFields, r: Reading): RawFields {
    match r
    case NameRead(n) => f.(name := n)
    case NumberRead(tag, p) => Store(f, tag, p.value)
    case EndRead(_) => f
  }

  /** The error a reading joins to `err`: a failed parse's under its field,
      a wrong terminator's with the bytes found. */
  function ErrorsOf(r: Reading): seq<HeaderError> {
    match r
    case NameRead(_) => []
    case NumberRead(tag, p) => if p.err.Some? then [FieldError(tag, p.err.value)] else []
    case EndRead(w) => if w.Some? then [EndCharsError(w.value)] else []
  }

  /** The field decoding shared by `unmarshalHeader` (idBits 64) and
      `newHeader` (idBits 32): every column read, whatever the others hold. */
  function DecodeFields(buf: seq<byte>, idBits: nat): Decoded<RawFields>
    requires |buf| >= 58
    requires idBits == 32 || idBits == 64
  {
    Decoded(FillFrom(buf, idBits, |Columns|), JoinedFrom(buf, idBits, |Columns|))
  }

  /** The fields the decoders have stored after reading the first n columns. */
  function FillFrom(buf: seq<byte>, idBits: nat, n: nat): RawFields
    requires |buf| >= 58
    requires idBits == 32 || idBits == 64
    requires n <= |Columns|
  {
    if n == 0 then RawFields([], 0, 0, 0, 0, 0)
    else Absorb(FillFrom(buf, idBits, n - 1), Read(buf, Columns[n - 1], idBits))
  }

  /** The errors joined after reading the first n columns, each column's
      after the earlier columns'. */
  function JoinedFrom(buf: seq<byte>, idBits: nat, n: nat): seq<HeaderError>
    requires |buf| >= 58
    requires idBits == 32 || idBits == 64
    requires n <= |Columns|
  {
    if n == 0 then [] else JoinedFrom(buf, idBits, n - 1) + ErrorsOf(Read(buf, Columns[n - 1], idBits))
  }

  /** An error is joined exactly when one of the columns read produced it. */
  lemma {:induction false} JoinedReports(buf: seq<byte>, idBits: nat, n: nat, e: HeaderError)
    requires |buf| >= 58
    requires idBits == 32 || idBits == 64
    requires n <= |Columns|
    ensures e in JoinedFrom(buf, idBits, n) <==> exists i | 0 <= i < n :: e in ErrorsOf(Read(buf, Columns[i], idBits))
    decreases n
  {
    if n > 0 {
      JoinedReports(buf, idBits, n - 1, e);
    }
  }

  /** A column that reports a field's error is that field's column. */
  lemma {:induction false} FieldErrorAt(buf: seq<byte>, idBits: nat, col: Column, tag: FieldTag, c: NumError)
    requires |buf| >= 58
    requires idBits == 32 || idBits == 64
    requires FieldError(tag, c) in ErrorsOf(Read(buf, col, idBits))
    ensures ParseField(buf, tag, idBits).err == Some(c)
  {
    match col
    case NameColumn =>
    case EndColumn =>
    case NumberColumn(t) =>
  }

  /** A column that reports a terminator error is the terminator's. */
  lemma {:induction false} EndErrorAt(buf: seq<byte>, idBits: nat, col: Column, got: seq<byte>)
    requires |buf| >= 58
    requires idBits == 32 || idBits == 64
    requires EndCharsError(got) in ErrorsOf(Read(buf, col, idBits))
    ensures !EndsRecord(buf) && got == buf[58..]
  {
    match col
    case NameColumn =>
    case EndColumn =>
    case NumberColumn(t) =>
  }

  /** A field's error can only come from that field's own column. */
  lemma {:induction false} FieldErrorSource(buf: seq<byte>, idBits: nat, tag: FieldTag, c: NumError)
    requires |buf| >= 58
    requires idBits == 32 || idBits == 64
    ensures (exists i | 0 <= i < |Columns| :: FieldError(tag, c) in ErrorsOf(Read(buf, Columns[i], idBits)))
            <==> ParseField(buf, tag, idBits).err == Some(c)
  {
    if exists i | 0 <= i < |Columns| :: FieldError(tag, c) in ErrorsOf(Read(buf, Columns[i], idBits)) {
      var i :| 0 <= i < |Columns| && FieldError(tag, c) in ErrorsOf(Read(buf, Columns[i], idBits));
      FieldErrorAt(buf, idBits, Columns[i], tag, c);
    } else {
      var k := ColumnOf(tag);
      assert FieldError(tag, c) !in ErrorsOf(Read(buf, Columns[k], idBits));
    }
  }

  /** A terminator error can only come from the last column. */
  lemma {:induction false} EndErrorSource(buf: seq<byte>, idBits: nat, got: seq<byte>)
    requires |buf| >= 58
    requires idBits == 32 || idBits == 64
    ensures (exists i | 0 <= i < |Columns| :: EndCharsError(got) in ErrorsOf(Read(buf, Columns[i], idBits)))
            <==> !EndsRecord(buf) && got == buf[58..]
  {
    if exists i | 0 <= i < |Columns| :: EndCharsError(got) in ErrorsOf(Read(buf, Columns[i], idBits)) {
      var i :| 0 <= i < |Columns| && EndCharsError(got) in ErrorsOf(Read(buf, Columns[i], idBits));
      EndErrorAt(buf, idBits, Columns[i], got);
    } else {
      assert EndCharsError(got) !in ErrorsOf(Read(buf, Columns[6], idBits));
    }
  }

  /** Every decoded number is an int64, and at 32-bit ids both ids are
      int32s. */
  lemma {:induction false} DecodeRanges(buf: seq<byte>, idBits: nat)
    requires |buf| >= 58
    requires idBits == 32 || idBits == 64
    ensures var f := DecodeFields(buf, idBits).header;
      && -0x8000_0000_0000_0000 <= f.modTime < 0x8000_0000_0000_0000
      && -0x8000_0000_0000_0000 <= f.uid < 0x8000_0000_0000_0000
      && -0x8000_0000_0000_0000 <= f.gid < 0x8000_0000_0000_0000
      && -0x8000_0000_0000_0000 <= f.mode < 0x8000_0000_0000_0000
      && -0x8000_0000_0000_0000 <= f.size < 0x8000_0000_0000_0000
      && (idBits == 32 ==> -0x8000_0000 <= f.uid < 0x8000_0000 && -0x8000_0000 <= f.gid < 0x8000_0000)
  {
    DecodeFieldsSpec(buf, idBits);
  }

  /** Each field holds what its own column reads: the trimmed name and the
      value of every parse, 0 where a parse failed. */
  lemma {:induction false} DecodeFieldsSpec(buf: seq<byte>, idBits: nat)
    requires |buf| >= 58
    requires idBits == 32 || idBits == 64
    ensures var f := DecodeFields(buf, idBits).header;
      && f.name == DecodeName(Field(buf, NameSlot))
      && f.modTime == ParseField(buf, ModTimeField, idBits).value
      && f.uid == ParseField(buf, OwnerField, idBits).value
      && f.gid == ParseField(buf, GroupField, idBits).value
      && f.mode == ParseField(buf, ModeField, idBits).value
      && f.size == ParseField(buf, SizeField, idBits).value
  {
    FilledName(buf, idBits, |Columns|);
    FilledField(buf, idBits, |Columns|, ModTimeField);
    FilledField(buf, idBits, |Columns|, OwnerField);
    FilledField(buf, idBits, |Columns|, GroupField);
    FilledField(buf, idBits, |Columns|, ModeField);
    FilledField(buf, idBits, |Columns|, SizeField);
  }

  /** The numeric field a tag names. */
  function Get(f: RawFields, tag: FieldTag): int {
    match tag
    case ModTimeField => f.modTime
    case OwnerField => f.uid
    case GroupField => f.gid
    case ModeField => f.mode
    case SizeField => f.size
  }

  /** After n columns, a numeric field holds its parse value once its own
      column was read, and 0 before. */
  lemma {:induction false} FilledField(buf: seq<byte>, idBits: nat, n: nat, tag: FieldTag)
    requires |buf| >= 58
    requires idBits == 32 || idBits == 64
    requires n <= |Columns|
    ensures Get(FillFrom(buf, idBits, n), tag) == if ColumnOf(tag) < n then ParseField(buf, tag, idBits).value else 0
    decreases n
  {
    if n > 0 {
      FilledField(buf, idBits, n - 1, tag);
      FillGet(buf, idBits, n, tag);
    }
  }

  /** Column n - 1 changes a numeric field only when it is that field's column. */
  lemma {:induction false} FillGet(buf: seq<byte>, idBits: nat, n: nat, tag: FieldTag)
    requires |buf| >= 58
    requires idBits == 32 || idBits == 64
    requires 0 < n <= |Columns|
    ensures Get(FillFrom(buf, idBits, n), tag) ==
      if ColumnOf(tag) == n - 1 then ParseField(buf, tag, idBits).value else Get(FillFrom(buf, idBits, n - 1), tag)
  {
    var r := Read(buf, Columns[n - 1], idBits);
    AbsorbGet(FillFrom(buf, idBits, n - 1), r, tag);
    if ColumnOf(tag) == n - 1 {
      assert r == NumberRead(tag, ParseField(buf, tag, idBits));
    } else {
      assert !r.NumberRead? || r.tag != tag;
    }
  }

  /** A reading changes a numeric field only when it is that field's parse. */
  lemma AbsorbGet(f: RawFields, r: Reading, tag: FieldTag)
    ensures Get(Absorb(f, r), tag) == if r.NumberRead? && r.tag == tag then r.parsed.value else Get(f, tag)
  {
  }

  /** After n columns, the name is the decoded name once its column was read. */
  lemma {:induction false} FilledName(buf: seq<byte>, idBits: nat, n: nat)
    requires |buf| >= 58
    requires idBits == 32 || idBits == 64
    requires n <= |Columns|
    ensures FillFrom(buf, idBits, n).name == if 0 < n then DecodeName(Field(buf, NameSlot)) else []
    decreases n
  {
    if n > 0 {
      FilledName(buf, idBits, n - 1);
    }
  }

  /** Error aggregation: a field's error is reported exactly when that field
      fails to parse with it. */
  lemma {:induction false} DecodeReportsFieldFailure(buf: seq<byte>, idBits: nat, tag: FieldTag, c: NumError)
    requires |buf| >= 58
    requires idBits == 32 || idBits == 64
    ensures FieldError(tag, c) in DecodeFields(buf, idBits).errors <==> ParseField(buf, tag, idBits).err == Some(c)
  {
    JoinedReports(buf, idBits, |Columns|, FieldError(tag, c));
    FieldErrorSource(buf, idBits, tag, c);
  }

  /** The terminator's error is reported exactly when it is not "`\n", and
      carries the bytes found. */
  lemma {:induction false} DecodeReportsEndFailure(buf: seq<byte>, idBits: nat, got: seq<byte>)
    requires |buf| >= 58
    requires idBits == 32 || idBits == 64
    ensures EndCharsError(got) in DecodeFields(buf, idBits).errors <==> buf[58..] != HeaderEnd && got == buf[58..]
  {
    JoinedReports(buf, idBits, |Columns|, EndCharsError(got));
    EndErrorSource(buf, idBits, got);
    EndsRecordSpec(buf);
  }

  /** A record decodes without any error exactly when its terminator is
      right and every numeric field parses. */
  lemma {:induction false} DecodeClean(buf: seq<byte>, idBits: nat)
    requires |buf| >= 58
    requires idBits == 32 || idBits == 64
    ensures DecodeFields(buf, idBits).errors == [] <==>
      buf[58..] == HeaderEnd && forall t :: ParseField(buf, t, idBits).err.None?
  {
    var errs := DecodeFields(buf, idBits).errors;
    if errs == [] {
      forall t | true
        ensures ParseField(buf, t, idBits).err.None?
      {
        if ParseField(buf, t, idBits).err.Some? {
          DecodeReportsFieldFailure(buf, idBits, t, ParseField(buf, t, idBits).err.value);
        }
      }
      DecodeReportsEndFailure(buf, idBits, buf[58..]);
    } else {
      assert errs[0] in errs;
      match errs[0]
      case FieldError(t, c) => DecodeReportsFieldFailure(buf, idBits, t, c);
      case EndCharsError(g) => DecodeReportsEndFailure(buf, idBits, g);
    }
  }

  /** The error a numeric field adds to the decoding: one when its parse fails. */
  function FieldReport(buf: seq<byte>, tag: FieldTag, idBits: nat): (r: seq<HeaderError>)
    requires |buf| >= 58
    requires idBits == 32 || idBits == 64
    ensures |r| <= 1
  {
    var p := ParseField(buf, tag, idBits);
    if p.err.Some? then [FieldError(tag, p.err.value)] else []
  }

  /** The error the terminator check adds: one, with the bytes found, when it fails. */
  function EndReport(buf: seq<byte>): (r: seq<HeaderError>)
    requires |buf| >= 58
    ensures |r| <= 1
  {
    if buf[58..] == HeaderEnd then [] else [EndCharsError(buf[58..])]
  }

  /** The joined errors in full: at most one per failing field, in the order
      the fields are parsed, then the terminator's. */
  lemma {:induction false} DecodeErrorsInOrder(buf: seq<byte>, idBits: nat)
    requires |buf| >= 58
    requires idBits == 32 || idBits == 64
    ensures DecodeFields(buf, idBits).errors ==
      FieldReport(buf, ModTimeField, idBits) + FieldReport(buf, OwnerField, idBits)
      + FieldReport(buf, GroupField, idBits) + FieldReport(buf, ModeField, idBits)
      + FieldReport(buf, SizeField, idBits) + EndReport(buf)
  {
    LeadingReports(buf, idBits);
    ReportOf(buf, idBits, 4, ModeField);
    ReportOf(buf, idBits, 5, SizeField);
    EndReportOf(buf, idBits);
  }

  /** The errors after the first three numeric columns. */
  lemma {:induction false} LeadingReports(buf: seq<byte>, idBits: nat)
    requires |buf| >= 58
    requires idBits == 32 || idBits == 64
    ensures JoinedFrom(buf, idBits, 4) ==
      FieldReport(buf, ModTimeField, idBits) + FieldReport(buf, OwnerField, idBits) + FieldReport(buf, GroupField, idBits)
  {
    assert JoinedFrom(buf, idBits, 1) == [];
    ReportOf(buf, idBits, 1, ModTimeField);
    assert JoinedFrom(buf, idBits, 2) == FieldReport(buf, ModTimeField, idBits);
    ReportOf(buf, idBits, 2, OwnerField);
    ReportOf(buf, idBits, 3, GroupField);
  }

  /** Column k of a numeric field adds that field's report to the errors. */
  lemma {:induction false} ReportOf(buf: seq<byte>, idBits: nat, k: nat, tag: FieldTag)
    requires |buf| >= 58
    requires idBits == 32 || idBits == 64
    requires 1 <= k <= 5 && Columns[k] == NumberColumn(tag)
    ensures JoinedFrom(buf, idBits, k + 1) == JoinedFrom(buf, idBits, k) + FieldReport(buf, tag, idBits)
  {
  }

  /** The last column adds the terminator's report. */
  lemma {:induction false} EndReportOf(buf: seq<byte>, idBits: nat)
    requires |buf| >= 58
    requires idBits == 32 || idBits == 64
    ensures JoinedFrom(buf, idBits, 7) == JoinedFrom(buf, idBits, 6) + EndReport(buf)
  {
    EndsRecordSpec(buf);
  }

  /** `unmarshalHeader`: ids and mode are converted with `uint32(...)` and
      `fs.FileMode(...)`, both truncating to 32 bits. */
  function UnmarshalHeader(buf: seq<byte>): (r: Decoded<Header>)
    requires |buf| >= 58
  {
    var d := DecodeFields(buf, 64);
    DecodeRanges(buf, 64);
    var f := d.header;
    Decoded(Header(f.name, f.modTime, Uint32(f.uid), Uint32(f.gid), Uint32(f.mode), f.size), d.errors)
  }

  // ---------------------------------------------------------------------------
  // Properties

  /** A header that survives marshal and unmarshal unchanged: its name fits,
      has no white space at either end and no trailing slash, and every
      number's rendering fits its field. The name's first and last bytes are
      ASCII: Go's TrimSpace would otherwise look for Unicode white space
      there, such as U+00A0, and could drop it. */
  predicate Representable(h: Header) {
    && |h.name| <= 16
    && (h.name == [] || (!IsSpace(h.name[0]) && !IsSpace(h.name[|h.name| - 1]) && h.name[|h.name| - 1] != '/'))
    && (h.name == [] || (IsAscii(h.name[0]) && IsAscii(h.name[|h.name| - 1])))
    && forall tag :: |Rendering(h, tag)| <= SlotOf(tag).width
  }

  /** The id fields are six digits wide, so a representable header's ids are
      below 10^6 and fit newHeader's signed 32-bit parse. */
  lemma {:induction false} IdsFit(h: Header)
    requires Representable(h)
    ensures h.uid < 1_000_000 && h.gid < 1_000_000
  {
    assert |Rendering(h, OwnerField)| <= 6 && |Rendering(h, GroupField)| <= 6;
    DigitsValueBound(FormatNat(h.uid, 10), 10);
    DigitsValueBound(FormatNat(h.gid, 10), 10);
    PowMonotone(10, |FormatNat(h.uid, 10)|, 6);
    PowMonotone(10, |FormatNat(h.gid, 10)|, 6);
    PowTen6();
  }

  lemma {:induction false} JustifiedIsPadded(field: seq<byte>, text: seq<byte>)
    requires Justified(field, text) && |text| <= |field|
    ensures field == text + Spaces(|field| - |text|)
  {
  }

  /** A number whose rendering fits a blank-padded field parses back from it. */
  lemma {:induction false} PaddedNumeralReadsBack(field: seq<byte>, n: int, base: nat, bitSize: nat)
    requires 2 <= base <= 10
    requires bitSize == 32 || bitSize == 64
    requires -(Cutoff(bitSize) as int) <= n < Cutoff(bitSize)
    requires Justified(field, FormatInt(n, base)) && |FormatInt(n, base)| <= |field|
    ensures ParseInt(TrimRightBlanks(field), base, bitSize) == Parsed(n, None)
  {
    var text := FormatInt(n, base);
    JustifiedIsPadded(field, text);
    assert text[|text| - 1] != ' ' by {
      var digits := if n < 0 then text[1..] else text;
      assert AllDigits(digits, base);
      assert text[|text| - 1] == digits[|digits| - 1];
    }
    TrimRightBlanksPadded(text, |field| - |text|);
    ParseFormatInt(n, base, bitSize);
  }

  /** A rendered number fitting its field reads back as that number. */
  lemma {:induction false} FieldReadsBack(buf: seq<byte>, h: Header, tag: FieldTag, idBits: nat)
    requires |buf| >= 58
    requires idBits == 32 || idBits == 64
    requires Justified(Field(buf, SlotOf(tag)), Rendering(h, tag))
    requires |Rendering(h, tag)| <= SlotOf(tag).width
    requires idBits == 32 ==> h.uid < 0x8000_0000 && h.gid < 0x8000_0000
    ensures ParseField(buf, tag, idBits).err.None?
    ensures tag == ModTimeField ==> ParseField(buf, tag, idBits).value == h.modTime
    ensures tag == OwnerField ==> ParseField(buf, tag, idBits).value == h.uid
    ensures tag == GroupField ==> ParseField(buf, tag, idBits).value == h.gid
    ensures tag == ModeField ==> ParseField(buf, tag, idBits).value == h.mode
    ensures tag == SizeField ==> ParseField(buf, tag, idBits).value == h.size
  {
    var field := Field(buf, SlotOf(tag));
    var bits := BitsOf(tag, idBits);
    PowTwo31();
    PowTwo63();
    match tag
    case ModTimeField => PaddedNumeralReadsBack(field, h.modTime, 10, bits);
    case OwnerField => PaddedNumeralReadsBack(field, h.uid, 10, bits);
    case GroupField => PaddedNumeralReadsBack(field, h.gid, 10, bits);
    case ModeField => PaddedNumeralReadsBack(field, h.mode, 8, bits);
    case SizeField => PaddedNumeralReadsBack(field, h.size, 10, bits);
  }

  /** A name copied into its slot decodes back to itself. */
  lemma {:induction false} NameReadsBack(buf: seq<byte>, name: seq<byte>)
    requires |buf| >= 16 && |name| <= 16
    requires Justified(Field(buf, NameSlot), name)
    requires name == [] || (!IsSpace(name[0]) && !IsSpace(name[|name| - 1]) && name[|name| - 1] != '/')
    requires name == [] || (IsAscii(name[0]) && IsAscii(name[|name| - 1]))
    ensures DecodeName(Field(buf, NameSlot)) == name
  {
    JustifiedIsPadded(Field(buf, NameSlot), name);
    TrimSpacePadded(name, 16 - |name|);
  }

  /** A marshalled representable header decodes to its own fields, whichever
      id width the decoder uses, provided the ids fit it. */
  lemma {:induction false} DecodeMarshalFields(h: Header, idBits: nat)
    requires Representable(h)
    requires idBits == 32 || idBits == 64
    requires idBits == 32 ==> h.uid < 0x8000_0000 && h.gid < 0x8000_0000
    ensures Marshal(h).Success?
    ensures DecodeFields(Marshal(h).value, idBits).header == RawFields(h.name, h.modTime, h.uid, h.gid, h.mode, h.size)
  {
    var buf := Marshal(h).value;
    MarshalJustified(h);
    DecodeFieldsSpec(buf, idBits);
    NameReadsBack(buf, h.name);
    FieldReadsBack(buf, h, ModTimeField, idBits);
    FieldReadsBack(buf, h, OwnerField, idBits);
    FieldReadsBack(buf, h, GroupField, idBits);
    FieldReadsBack(buf, h, ModeField, idBits);
    FieldReadsBack(buf, h, SizeField, idBits);
  }

  /** A marshalled representable header decodes without any error. */
  lemma {:induction false} DecodeMarshalClean(h: Header, idBits: nat)
    requires Representable(h)
    requires idBits == 32 || idBits == 64
    requires idBits == 32 ==> h.uid < 0x8000_0000 && h.gid < 0x8000_0000
    ensures Marshal(h).Success?
    ensures DecodeFields(Marshal(h).value, idBits).errors == []
  {
    var buf := Marshal(h).value;
    MarshalJustified(h);
    forall t | true
      ensures ParseField(buf, t, idBits).err.None?
    {
      FieldReadsBack(buf, h, t, idBits);
    }
    DecodeClean(buf, idBits);
  }

  /** Round trip: unmarshal(marshal(h)) is h with no error for every representable header. */
  lemma {:induction false} UnmarshalMarshal(h: Header)
    requires Representable(h)
    ensures Marshal(h).Success?
    ensures UnmarshalHeader(Marshal(h).value) == Decoded(h, [])
  {
    DecodeMarshalFields(h, 64);
    DecodeMarshalClean(h, 64);
  }

  /** A trailing slash does not survive the round trip: `unmarshalHeader`
      drops it, as the GNU convention of ending names with '/' requires. */
  lemma {:induction false} SlashIsDropped(h: Header)
    requires |h.name| <= 16 && h.name != [] && !IsSpace(h.name[0]) && !IsSpace(h.name[|h.name| - 1])
    requires IsAscii(h.name[0]) && IsAscii(h.name[|h.name| - 1])
    ensures Marshal(h).Success?
    ensures UnmarshalHeader(Marshal(h).value).header.name == TrimSlash(h.name)
  {
    var f := Field(Marshal(h).value, NameSlot);
    MarshalJustified(h);
    DecodeFieldsSpec(Marshal(h).value, 64);
    JustifiedIsPadded(f, h.name);
    TrimSpacePadded(h.name, 16 - |h.name|);
    assert DecodeName(f) == TrimSlash(h.name);
  }

  /** The errors of unmarshalHeader are exactly the syntax errors of the
      trimmed fields and a wrong terminator; a range error never occurs. */
  lemma {:induction false} UnmarshalErrors(buf: seq<byte>, tag: FieldTag)
    requires |buf| >= 58
    ensures FieldError(tag, ErrSyntax) in UnmarshalHeader(buf).errors
        <==> !IsNumeral(TrimRightBlanks(Field(buf, SlotOf(tag))), BaseOf(tag))
    ensures FieldError(tag, ErrRange) !in UnmarshalHeader(buf).errors
    ensures EndCharsError(buf[58..]) in UnmarshalHeader(buf).errors <==> buf[58..] != HeaderEnd
  {
    DecodeReportsFieldFailure(buf, 64, tag, ErrSyntax);
    DecodeReportsFieldFailure(buf, 64, tag, ErrRange);
    DecodeReportsEndFailure(buf, 64, buf[58..]);
  }

  /** A record decodes without error exactly when its terminator is right and
      every trimmed numeric field is a numeral. */
  lemma {:induction false} UnmarshalClean(buf: seq<byte>)
    requires |buf| >= 58
    ensures UnmarshalHeader(buf).errors == [] <==>
      (buf[58..] == HeaderEnd && forall t :: IsNumeral(TrimRightBlanks(Field(buf, SlotOf(t))), BaseOf(t)))
  {
    DecodeClean(buf, 64);
    assert forall t :: ParseField(buf, t, 64).err.None? <==> IsNumeral(TrimRightBlanks(Field(buf, SlotOf(t))), BaseOf(t));
  }

  /** The time, ids and mode shared by the headers of the writer's test. */
  predicate FixtureMeta(h: Header) {
    h.modTime == 1342943816 && h.uid == 0 && h.gid == 1 && h.mode == 0x81A4
  }

  /** A header of the writer's test: its name and size fields around the
      fixed text of the other four. */
  lemma {:induction false} FixtureHeader(h: Header)
    requires FixtureMeta(h) && |h.name| <= 16
    ensures Marshal(h) == Success(
      Fit(h.name, 16) + "1342943816  " + "0     " + "1     " + "100644  " + Fit(Rendering(h, SizeField), 10) + "`\n")
  {
    MarshalLayout(h);
    FixtureTime(h);
    FixtureIds(h);
  }

  lemma {:induction false} FixtureTime(h: Header)
    requires FixtureMeta(h)
    ensures Fit(Rendering(h, ModTimeField), 12) == "1342943816  "
    ensures Fit(Rendering(h, ModeField), 8) == "100644  "
  {
    ModTimeDigits();
    ModeDigits();
  }

  lemma {:induction false} FixtureIds(h: Header)
    requires FixtureMeta(h)
    ensures Fit(Rendering(h, OwnerField), 6) == "0     "
    ensures Fit(Rendering(h, GroupField), 6) == "1     "
  {
    assert FormatNat(0, 10) == "0" && FormatNat(1, 10) == "1";
  }

  /** The header written for the `debian-binary` entry of the writer's test,
      byte for byte. */
  lemma {:induction false} DebianBinaryHeader(h: Header)
    requires h == Header("debian-binary", 1342943816, 0, 1, 0x81A4, 4)
    ensures Marshal(h) == Success(
      "debian-binary   " + "1342943816  " + "0     " + "1     " + "100644  " + "4         " + "`\n")
  {
    FixtureHeader(h);
    assert Fit(h.name, 16) == "debian-binary   ";
    assert FormatNat(4, 10) == "4";
    assert Fit(Rendering(h, SizeField), 10) == "4         ";
  }

  lemma ModTimeDigits()
    ensures FormatInt(1342943816, 10) == "1342943816"
  {
    assert FormatNat(1, 10) == "1";
    assert FormatNat(13, 10) == "13";
    assert FormatNat(134, 10) == "134";
    assert FormatNat(1342, 10) == "1342";
    assert FormatNat(13429, 10) == "13429";
    assert FormatNat(134294, 10) == "134294";
    assert FormatNat(1342943, 10) == "1342943";
    assert FormatNat(13429438, 10) == "13429438";
    assert FormatNat(134294381, 10) == "134294381";
  }

  lemma ModeDigits()
    ensures FormatNat(0x81A4, 8) == "100644"
  {
    assert FormatNat(1, 8) == "1";
    assert FormatNat(8, 8) == "10";
    assert FormatNat(64, 8) == "100";
    assert FormatNat(518, 8) == "1006";
    assert FormatNat(4148, 8) == "10064";
  }
}
