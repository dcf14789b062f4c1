/** The fixed-size message buffer requests and replies travel in. */
module Can {
  import opened Bytes
  import opened Services

  class Message {
    const pdata: array<byte>
    var usz: nat

    ghost predicate Valid()
      reads this
    {
      pdata.Length == MAX_MESSAGE_SIZE && usz <= MAX_MESSAGE_SIZE
    }

    ghost function Content(): seq<byte>
      reads this, pdata
      requires Valid()
    {
      pdata[..usz]
    }

    /** The buffer past the content is zero, as it is right after a receive. */
    ghost predicate Padded()
      reads this, pdata
      requires Valid()
    {
      forall i :: usz <= i < pdata.Length ==> pdata[i] == 0
    }

    /** A slice of a padded buffer is the padded slice of its content. */
    lemma PaddedContent(from: nat, n: nat)
      requires Valid() && Padded() && from <= usz && from + n <= MAX_MESSAGE_SIZE
      ensures pdata[from..from + n] == TakePad(Content()[from..], n)
    {
    }

    constructor ()
      ensures Valid() && Content() == [] && Padded() && fresh(pdata)
    {
      usz := 0;
      pdata := new byte[MAX_MESSAGE_SIZE](_ => 0);
    }

    /** `memset(msg, 0, sizeof(*msg))`. */
    method Clear()
      requires Valid()
      modifies this, pdata
      ensures Valid() && Content() == [] && Padded()
    {
      for i := 0 to pdata.Length
        invariant forall k :: 0 <= k < i ==> pdata[k] == 0
      {
        pdata[i] := 0;
      }
      usz := 0;
    }

    /** A successful socket read into a cleared message. */
    method Receive(raw: seq<byte>)
      requires Valid() && Content() == [] && Padded() && |raw| <= MAX_MESSAGE_SIZE
      modifies this, pdata
      ensures Valid() && Content() == raw && Padded()
    {
      for i := 0 to |raw|
        invariant forall k :: 0 <= k < i ==> pdata[k] == raw[k]
        invariant forall k :: |raw| <= k < pdata.Length ==> pdata[k] == 0
      {
        pdata[i] := raw[i];
      }
      usz := |raw|;
    }

    /** Writes the three bytes of a negative response. */
    method PutNegative(sid: byte, rc: byte)
      requires Valid()
      modifies this, pdata
      ensures Valid() && Content() == [SID_NEGATIVE, sid, rc]
    {
      pdata[0] := SID_NEGATIVE;
      pdata[1] := sid;
      pdata[2] := rc;
      usz := 3;
    }
  }

  /** `memcpy` between two buffers. */
  method Copy(dst: array<byte>, at: nat, src: array<byte>, from: nat, n: nat)
    requires dst != src && at + n <= dst.Length && from + n <= src.Length
    modifies dst
    ensures dst[at..at + n] == src[from..from + n]
    ensures forall k :: 0 <= k < dst.Length && !(at <= k < at + n) ==> dst[k] == old(dst[k])
  {
    for i := 0 to n
      invariant dst[at..at + i] == src[from..from + i]
      invariant forall k :: 0 <= k < dst.Length && !(at <= k < at + n) ==> dst[k] == old(dst[k])
    {
      dst[at + i] := src[from + i];
    }
  }
}
