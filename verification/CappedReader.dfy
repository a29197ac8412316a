/** The guest agent's capped reader: keep the first bytes of a stream, drain the rest. */
module CappedReader {
  import opened Prelude

  /** What one read of the stream yields; no bytes means the end. */
  datatype Read = Data(bytes: Bytes) | Failure

  /** How many reads precede the first one that is empty or fails. */
  function Length(input: seq<Read>): (n: nat)
    ensures n <= |input|
    ensures forall i :: 0 <= i < n ==> input[i].Data? && input[i].bytes != []
    ensures n < |input| ==> input[n].Failure? || input[n].bytes == []
  {
    if input == [] || input[0].Failure? || input[0].bytes == [] then 0 else 1 + Length(input[1..])
  }

  /** Everything the stream delivers before it ends. */
  function Stream(input: seq<Read>): Bytes {
    if input == [] || input[0].Failure? || input[0].bytes == [] then []
    else input[0].bytes + Stream(input[1..])
  }

  predicate Fails(input: seq<Read>) { Length(input) < |input| && input[Length(input)].Failure? }

  datatype Outcome = Kept(bytes: Bytes, truncated: bool) | IoError

  /** However the stream is cut into reads: the first `cap` bytes are kept, truncation is reported
      exactly when there were more, and every read up to the end is made. */
  method ReadCapped(input: seq<Read>, cap: nat) returns (r: Outcome, consumed: nat)
    ensures consumed == Length(input)
    ensures r.IoError? <==> Fails(input)
    ensures r.Kept? ==> r.bytes == Stream(input)[..Min(cap, |Stream(input)|)]
    ensures r.Kept? ==> (r.truncated <==> |Stream(input)| > cap)
  {
    hide Stream;
    hide Length;
    var buf, truncated := [], false;
    consumed := 0;
    ghost var seen: Bytes := [];
    assert input[0..] == input && [] + Stream(input) == Stream(input);
    while consumed < |input|
      invariant consumed <= |input|
      invariant Length(input) == consumed + Length(input[consumed..])
      invariant Stream(input) == seen + Stream(input[consumed..])
      invariant buf == seen[..Min(cap, |seen|)]
      invariant truncated <==> |seen| > cap
    {
      StreamAt(input, consumed);
      match input[consumed] {
        case Failure =>
          return IoError, consumed;
        case Data(chunk) =>
          if chunk == [] {
            break;
          }
          var n := |chunk|;
          Assoc(seen, chunk, Stream(input[consumed + 1..]));
          if |buf| < cap {
            var take := Min(cap - |buf|, n);
            KeepMore(seen, chunk, cap);
            buf := buf + chunk[..take];
            if take < n {
              truncated := true;
            }
          } else {
            DropMore(seen, chunk, cap);
            truncated := true;
          }
          seen := seen + chunk;
          consumed := consumed + 1;
      }
    }
    StreamEnds(input, consumed);
    assert seen + [] == seen;
    r := Kept(buf, truncated);
  }

  /** One read delivers its bytes and then the rest of the stream, unless it ends the stream. */
  lemma StreamAt(input: seq<Read>, k: nat)
    requires k < |input|
    ensures if input[k].Failure? || input[k].bytes == []
            then Length(input[k..]) == 0 && Stream(input[k..]) == []
            else
              && Length(input[k..]) == 1 + Length(input[k + 1..])
              && Stream(input[k..]) == input[k].bytes + Stream(input[k + 1..])
  {
    assert input[k..][1..] == input[k + 1..];
  }

  lemma StreamEnds(input: seq<Read>, k: nat)
    requires k <= |input|
    ensures k == |input| ==> Length(input[k..]) == 0 && Stream(input[k..]) == []
  {
  }

  lemma KeepMore(seen: Bytes, chunk: Bytes, cap: nat)
    requires |seen| < cap
    ensures (seen + chunk)[..Min(cap, |seen + chunk|)] == seen + chunk[..Min(cap - |seen|, |chunk|)]
  {
  }

  lemma DropMore(seen: Bytes, chunk: Bytes, cap: nat)
    requires |seen| >= cap
    ensures (seen + chunk)[..cap] == seen[..cap]
  {
  }

  /** Cutting a stream into non-empty reads does not change what it delivers. */
  lemma {:induction false} StreamOfChunks(chunks: seq<Bytes>)
    requires forall i :: 0 <= i < |chunks| ==> chunks[i] != []
    ensures Stream(Reads(chunks)) == Concat(chunks) && Length(Reads(chunks)) == |chunks|
  {
    if chunks != [] {
      StreamOfChunks(chunks[1..]);
      assert Reads(chunks)[1..] == Reads(chunks[1..]);
    }
  }

  function Reads(chunks: seq<Bytes>): seq<Read> {
    seq(|chunks|, i requires 0 <= i < |chunks| => Data(chunks[i]))
  }
}
