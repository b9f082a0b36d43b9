/** The archive writer of deb/ar/writer.go: it appends the signature before
    the first header, a pad byte before every later header that would start
    at an odd offset, the 60-byte header and the payload, if one is attached.

    The sink is the growing sequence `out`; its writes do not fail. */
module ArWriter {
  import opened Wrappers
  import opened Ascii
  import opened ArHeader

  /** What `WriteHeader` writes before the header, given the writer's offset. */
  function Lead(offset: int): (lead: seq<byte>)
    ensures offset == 0 ==> lead == Signature
    ensures offset != 0 ==> |lead| <= 1 && forall i :: 0 <= i < |lead| ==> lead[i] == '\n'
    ensures offset >= 0 ==> (offset + |lead|) % 2 == 0
  {
    if offset == 0 then Signature
    else if GoRem(offset, 2) == 1 then ['\n']
    else []
  }

  /** The bytes `io.Copy` moves from an attached section reader. */
  function Copied(payload: Option<seq<byte>>): seq<byte> {
    if payload.Some? then payload.value else []
  }

  /** `offset` over-counts each header by 60, an even number, so the writer
      pads exactly as if it counted the bytes it wrote. */
  lemma {:induction false} LeadOfWritten(offset: int, written: nat, headers: nat)
    requires offset == written + HeaderSize * headers
    requires written >= HeaderSize * headers
    ensures Lead(offset) == Lead(written)
  {
    assert offset == 0 <==> written == 0;
    assert offset % 2 == written % 2 by {
      assert offset == written + 2 * (30 * headers);
    }
  }

  /** `ar.Writer`: the offset it keeps and the bytes written to its sink. */
  class Writer {
    var offset: int
    var out: seq<byte>
    /** How many headers were written, each counted twice in `offset`. */
    ghost var headers: nat

    ghost predicate Valid()
      reads this
    {
      offset == |out| + HeaderSize * headers && |out| >= HeaderSize * headers
    }

    /** `NewWriter` over an empty sink. */
    constructor ()
      ensures Valid() && offset == 0 && out == [] && headers == 0
    {
      offset := 0;
      out := [];
      headers := 0;
    }

    /** `Write`: the bytes go to the sink unchanged and are counted. */
    method Write(b: seq<byte>) returns (n: nat)
      requires Valid()
      modifies this`offset, this`out
      ensures Valid()
      ensures out == old(out) + b && offset == old(offset) + |b| && n == |b|
    {
      out := out + b;
      offset := offset + |b|;
      n := |b|;
    }

    /** `WriteHeader`: the signature or pad, then the header and the payload.
        A name too long to marshal fails after the lead is written. */
    method WriteHeader(h: Header, payload: Option<seq<byte>>) returns (n: nat, e: Option<MarshalError>)
      requires Valid()
      modifies this
      ensures Valid()
      ensures e.Some? <==> Marshal(h).Failure?
      ensures e.Some? ==> e.value == Marshal(h).error && n == 0 && headers == old(headers)
                          && out == old(out) + Lead(old(offset))
                          && offset == old(offset) + |Lead(old(offset))|
      ensures e.None? ==> n == |Copied(payload)| && headers == old(headers) + 1
                          && out == old(out) + Lead(old(offset)) + Marshal(h).value + Copied(payload)
                          && offset == old(offset) + |Lead(old(offset))| + 2 * HeaderSize + n
    {
      if offset == 0 {
        out := out + Signature;
        offset := offset + |Signature|;
      } else if GoRem(offset, 2) == 1 {
        var _ := Write(['\n']);
      }
      var head := Marshal(h);
      if head.Failure? {
        return 0, Some(head.error);
      }
      var written := Write(head.value);
      offset := offset + written;
      headers := headers + 1;
      if payload.Some? {
        out := out + payload.value;
        offset := offset + |payload.value|;
        return |payload.value|, None;
      }
      return 0, None;
    }
  }
}
