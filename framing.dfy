/** How one response payload becomes the datagrams put on the wire: the
    single-packet form with an all-ones prefix, or the split form whose
    fragments share a transfer id. The split form is also given a client-side
    reassembler, so that framing can be stated as a round trip. */
module Framing {
  import opened Wire

  /** `MAX_PAYLOAD_SIZE`: the most payload bytes a single datagram carries. */
  const MAX_PAYLOAD_SIZE: nat := 1248

  /** Header of a single-packet response (-1 as a little-endian `int`). */
  const SINGLE_HEADER: Bytes := ALL_ONES

  /** Header of every fragment of a split response (-2). */
  const SPLIT_HEADER: Bytes := [0xFF, 0xFF, 0xFF, 0xFE]

  /** Size of a fragment's header: sentinel, transfer id, count, index and
      the 2-byte maximum size. */
  const FRAGMENT_HEADER_SIZE: nat := 12

  function Min(a: int, b: int): int { if a <= b then a else b }

  /** `Math.Ceiling(length / 1248.0)`: the number of fragments the payload
      needs. For lengths an array can have the double division is exact
      enough that this is the integer ceiling. */
  function FragmentCount(length: nat): nat
  {
    (length + MAX_PAYLOAD_SIZE - 1) / MAX_PAYLOAD_SIZE
  }

  /** The fragment count after the `(byte)` cast, modelled as reduction
      modulo 256. */
  function WireFragmentCount(length: nat): byte
  {
    FragmentCount(length) % 256
  }

  lemma FragmentCountBounds(length: nat, i: nat)
    requires i < FragmentCount(length)
    ensures i * MAX_PAYLOAD_SIZE < length
  {
  }

  /** The part of the payload that fragment `i` carries:
      `data[i * 1248 .. i * 1248 + Math.Min(1248, length - i * 1248)]`. */
  function Slice(data: Bytes, i: nat): Bytes
    requires i * MAX_PAYLOAD_SIZE < |data|
  {
    data[i * MAX_PAYLOAD_SIZE .. i * MAX_PAYLOAD_SIZE + Min(MAX_PAYLOAD_SIZE, |data| - i * MAX_PAYLOAD_SIZE)]
  }

  /** The header written before fragment `index` of a split response. */
  function FragmentHeader(id: Int32, count: byte, index: byte): Bytes
  {
    SPLIT_HEADER + Int32Bytes(id) + [count, index] + Int16Bytes(MAX_PAYLOAD_SIZE)
  }

  /** The datagrams sent for one payload, given the transfer id the split
      form would use. */
  function Frame(data: Bytes, id: Int32): seq<Bytes>
  {
    if |data| <= MAX_PAYLOAD_SIZE then [SINGLE_HEADER + data]
    else
      var n := WireFragmentCount(|data|);
      seq(n, i requires 0 <= i < n =>
        FragmentCountBounds(|data|, i);
        FragmentHeader(id, n, i) + Slice(data, i))
  }

  /** Whether `d` is fragment `index` of `count` with the given transfer id
      bytes, as a client checks it before reassembly. */
  predicate IsFragment(d: Bytes, idBytes: Bytes, count: nat, index: nat)
  {
    && |d| >= FRAGMENT_HEADER_SIZE
    && d[..4] == SPLIT_HEADER
    && d[4..8] == idBytes
    && d[8] == count
    && d[9] == index
    && d[10..12] == Int16Bytes(MAX_PAYLOAD_SIZE)
  }

  /** The fragments' payload parts, concatenated in order. */
  function Bodies(ds: seq<Bytes>): Bytes
    requires forall i :: 0 <= i < |ds| ==> |ds[i]| >= FRAGMENT_HEADER_SIZE
  {
    if ds == [] then []
    else Bodies(ds[..|ds| - 1]) + ds[|ds| - 1][FRAGMENT_HEADER_SIZE..]
  }

  /** A client's reading of the datagrams of one response: a lone
      single-packet datagram, or a complete run of fragments in index order
      under one transfer id. */
  function Reassemble(ds: seq<Bytes>): Option<Bytes>
  {
    if |ds| == 1 && |ds[0]| >= 4 && ds[0][..4] == SINGLE_HEADER then Some(ds[0][4..])
    else if 0 < |ds| && |ds[0]| >= 8
         && forall i :: 0 <= i < |ds| ==> IsFragment(ds[i], ds[0][4..8], |ds|, i)
    then Some(Bodies(ds))
    else None
  }

  /** A payload of at most 1248 bytes goes out as one datagram: the all-ones
      header followed by the payload. */
  lemma SingleDatagram(data: Bytes, id: Int32)
    requires |data| <= MAX_PAYLOAD_SIZE
    ensures |Frame(data, id)| == 1
    ensures |Frame(data, id)[0]| == 4 + |data|
    ensures Frame(data, id)[0][..4] == SINGLE_HEADER && Frame(data, id)[0][4..] == data
  {
  }

  /** A larger payload goes out as `ceil(len / 1248)` fragments in index
      order, all under the same transfer id; every fragment but the last
      carries exactly 1248 payload bytes and the last carries the rest. */
  lemma SplitDatagrams(data: Bytes, id: Int32)
    requires MAX_PAYLOAD_SIZE < |data| <= 255 * MAX_PAYLOAD_SIZE
    ensures var ds, n := Frame(data, id), FragmentCount(|data|);
      && |ds| == n >= 2
      && (forall i :: 0 <= i < n ==> IsFragment(ds[i], Int32Bytes(id), n, i))
      && (forall i :: 0 <= i < n - 1 ==> |ds[i]| == FRAGMENT_HEADER_SIZE + MAX_PAYLOAD_SIZE)
      && FRAGMENT_HEADER_SIZE < |ds[n - 1]| <= FRAGMENT_HEADER_SIZE + MAX_PAYLOAD_SIZE
      && |ds[n - 1]| - FRAGMENT_HEADER_SIZE == |data| - (n - 1) * MAX_PAYLOAD_SIZE
  {
    var ds, n := Frame(data, id), FragmentCount(|data|);
    assert WireFragmentCount(|data|) == n;
    forall i | 0 <= i < n
      ensures IsFragment(ds[i], Int32Bytes(id), n, i)
    {
      FragmentCountBounds(|data|, i);
      assert ds[i] == FragmentHeader(id, n, i) + Slice(data, i);
    }
  }

  /** Beyond 255 fragments the count wraps in its byte: fewer fragments are
      sent than the payload needs, so its tail never leaves the server. */
  lemma OversizedPayloadTruncated(data: Bytes, id: Int32)
    requires |data| > 255 * MAX_PAYLOAD_SIZE
    ensures |Frame(data, id)| == FragmentCount(|data|) % 256 < FragmentCount(|data|)
  {
  }

  /** Fragment `i` is its header followed by slice `i` of the payload. */
  lemma FragmentAt(data: Bytes, id: Int32, i: nat)
    requires MAX_PAYLOAD_SIZE < |data|
    requires i < WireFragmentCount(|data|)
    ensures |Frame(data, id)| == WireFragmentCount(|data|)
    ensures |Frame(data, id)[i]| >= FRAGMENT_HEADER_SIZE
    ensures i * MAX_PAYLOAD_SIZE < |data|
    ensures Frame(data, id)[i][FRAGMENT_HEADER_SIZE..] == Slice(data, i)
  {
    var n := WireFragmentCount(|data|);
    FragmentCountBounds(|data|, i);
    assert Frame(data, id)[i] == FragmentHeader(id, n, i) + Slice(data, i);
  }

  /** Fragment `i` as the sender writes it, field by field. */
  lemma FragmentFields(data: Bytes, id: Int32, i: nat)
    requires MAX_PAYLOAD_SIZE < |data|
    requires i < WireFragmentCount(|data|)
    ensures i * MAX_PAYLOAD_SIZE < |data|
    ensures Frame(data, id)[i]
      == SPLIT_HEADER + Int32Bytes(id) + [WireFragmentCount(|data|)] + [i as byte]
         + Int16Bytes(MAX_PAYLOAD_SIZE) + Slice(data, i)
  {
    FragmentCountBounds(|data|, i);
  }

  /** Datagrams whose payload parts are the payload's slices in order: the
      first `k` of them carry the first `k * 1248` bytes (or all of them). */
  lemma {:induction false} BodiesOfSlices(ds: seq<Bytes>, data: Bytes, k: nat)
    requires k <= |ds|
    requires forall i :: 0 <= i < |ds| ==>
      |ds[i]| >= FRAGMENT_HEADER_SIZE && i * MAX_PAYLOAD_SIZE < |data|
      && ds[i][FRAGMENT_HEADER_SIZE..] == Slice(data, i)
    ensures Bodies(ds[..k]) == data[..Min(k * MAX_PAYLOAD_SIZE, |data|)]
  {
    if k > 0 {
      BodiesOfSlices(ds, data, k - 1);
      var prefix := ds[..k];
      assert prefix[..k - 1] == ds[..k - 1];
      assert Bodies(prefix) == Bodies(ds[..k - 1]) + Slice(data, k - 1);
      var lo := (k - 1) * MAX_PAYLOAD_SIZE;
      assert Min(lo, |data|) == lo;
      assert data[..Min(k * MAX_PAYLOAD_SIZE, |data|)] == data[..lo] + Slice(data, k - 1);
    }
  }

  /** Framing loses nothing: a client reassembling the datagrams of any
      payload that fits in 255 fragments gets the payload back. */
  lemma FrameReassembles(data: Bytes, id: Int32)
    requires |data| <= 255 * MAX_PAYLOAD_SIZE
    ensures Reassemble(Frame(data, id)) == Some(data)
  {
    var ds := Frame(data, id);
    if |data| > MAX_PAYLOAD_SIZE {
      var n := FragmentCount(|data|);
      SplitDatagrams(data, id);
      forall i | 0 <= i < n
        ensures |ds[i]| >= FRAGMENT_HEADER_SIZE && i * MAX_PAYLOAD_SIZE < |data|
        ensures ds[i][FRAGMENT_HEADER_SIZE..] == Slice(data, i)
      {
        FragmentAt(data, id, i);
      }
      BodiesOfSlices(ds, data, n);
      assert ds[..n] == ds;
      assert Min(n * MAX_PAYLOAD_SIZE, |data|) == |data|;
      assert ds[0][4..8] == Int32Bytes(id);
      assert ds[0][..4][3] == 0xFE;
      assert forall i :: 0 <= i < |ds| ==> IsFragment(ds[i], ds[0][4..8], |ds|, i);
      assert Bodies(ds) == data[..|data|] == data;
    }
  }
}
