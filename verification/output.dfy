/**
 * `OutBuffer`: the single-shot response body. It holds the whole response text and
 * hands it out, as UTF-8 bytes, on the first `poll_data`; after that the stream is at
 * its end. Trailers are always absent.
 */
module Output {
  import opened Wrappers
  import opened Utf8

  /** An HTTP header map as name/value pairs in insertion order; names are lower-case. */
  type HeaderMap = seq<(string, seq<byte>)>

  datatype OutBuffer = OutBuffer(inner: Option<string>)

  /** `is_end_stream`: nothing is left to hand out, which is the one emptied buffer. */
  function IsEndStream(b: OutBuffer): (e: bool)
    ensures e <==> b == OutBuffer(None)
  {
    b.inner.None?
  }

  /** `From<String>`: a buffer that will yield `s` once. */
  function From(s: string): (b: OutBuffer)
    ensures !IsEndStream(b) && b.inner.value == s
  {
    OutBuffer(Some(s))
  }

  /** `OutBuffer::empty()`: a buffer that still yields one empty chunk. */
  function Empty(): (b: OutBuffer)
    ensures !IsEndStream(b) && b.inner.value == ""
  {
    From("")
  }

  /**
   * `poll_data`: takes the payload out, returning the buffer after the call and the
   * chunk (the payload's UTF-8 bytes), or no chunk once the payload is gone.
   */
  function PollData(b: OutBuffer): (r: (OutBuffer, Option<seq<byte>>))
    ensures IsEndStream(r.0)
    ensures r.1.Some? <==> !IsEndStream(b)
    ensures r.1.Some? ==> Decode(r.1.value) == b.inner
  {
    match b.inner
    case None => (b, None)
    case Some(s) =>
      DecodeEncode(s);
      (OutBuffer(None), Some(Encode(s)))
  }

  /** `poll_trailers`: never any trailers. */
  function PollTrailers(b: OutBuffer): (r: Option<HeaderMap>)
    ensures r.None?
  {
    None
  }

  /** The chunks `n` successive `poll_data` calls return. */
  function Drain(b: OutBuffer, n: nat): (chunks: seq<Option<seq<byte>>>)
    ensures |chunks| == n
    decreases n
  {
    if n == 0 then [] else var (b', chunk) := PollData(b); [chunk] + Drain(b', n - 1)
  }

  /** An exhausted buffer stays exhausted: every further poll yields nothing. */
  lemma {:induction false} DrainEnded(b: OutBuffer, n: nat)
    requires IsEndStream(b)
    ensures Drain(b, n) == seq(n, _ => None)
  {
    if n > 0 {
      DrainEnded(PollData(b).0, n - 1);
    }
  }

  /**
   * Single shot: a buffer made from `s` yields the bytes of `s` on the first poll and
   * nothing on every later one.
   */
  lemma DrainFrom(s: string, n: nat)
    ensures Drain(From(s), n + 1) == [Some(Encode(s))] + seq(n, _ => None)
  {
    DrainEnded(OutBuffer(None), n);
  }

  /** `empty()` still yields one empty chunk before it ends. */
  lemma DrainEmpty()
    ensures Drain(Empty(), 2) == [Some([]), None]
  {
    DrainFrom("", 1);
  }
}
