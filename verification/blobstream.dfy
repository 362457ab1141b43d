/**
 * `DXF.pull_blob` as the generator it is: each resumption feeds the next
 * chunk of the response to the hasher and yields it unchanged; the
 * resumption after the last chunk compares the hex digest of everything
 * fed with the requested digest and raises on a mismatch. A consumer that
 * stops early never reaches the comparison. The HTTP request and SHA-256
 * are outside the model: the response body arrives as its sequence of
 * chunks and the hash as a function.
 */
module BlobStream {
  import opened Wrappers
  import opened Text
  import opened Errors

  /** The bytes of a sequence of chunks, in order. */
  function Concat(chunks: seq<seq<Byte>>): seq<Byte>
    decreases |chunks|
  {
    if chunks == [] then [] else Concat(chunks[..|chunks| - 1]) + chunks[|chunks| - 1]
  }

  /** Lines 185-187: the check after the last chunk. */
  function Verdict(body: seq<Byte>, digest: string, sha256Hex: seq<Byte> -> string): (r: Option<Error>)
    ensures r.None? <==> sha256Hex(body) == digest
    ensures r.Some? ==> r.value == DigestMismatch(sha256Hex(body), digest)
  {
    var dgst := sha256Hex(body);
    if dgst != digest then Some(DigestMismatch(dgst, digest)) else None
  }

  /** What one resumption of the generator gives: a chunk, the end, or the raised error. */
  datatype Step = Yield(chunk: seq<Byte>) | Stop | Raise(error: Error)

  /** The suspended generator: the response, the hasher's input so far, and the position. */
  class BlobPull {
    const chunks: seq<seq<Byte>>
    const digest: string
    const sha256Hex: seq<Byte> -> string
    var fed: seq<Byte>
    var pos: nat
    var finished: bool

    /** The hasher has seen exactly the chunks yielded so far. */
    ghost predicate Valid()
      reads this
    {
      pos <= |chunks| && fed == Concat(chunks[..pos])
    }

    /** Lines 177-181: the request made, a fresh hasher, nothing yielded. */
    constructor(chunks: seq<seq<Byte>>, digest: string, sha256Hex: seq<Byte> -> string)
      ensures Valid()
      ensures this.chunks == chunks && this.digest == digest && this.sha256Hex == sha256Hex
      ensures pos == 0 && fed == [] && !finished
    {
      this.chunks := chunks;
      this.digest := digest;
      this.sha256Hex := sha256Hex;
      fed := [];
      pos := 0;
      finished := false;
    }

    /**
     * One resumption: lines 182-184 while chunks remain, lines 185-187
     * after the last one.
     */
    method Next() returns (step: Step)
      requires Valid() && !finished
      modifies this
      ensures Valid()
      ensures old(pos) < |chunks| ==>
        step == Yield(chunks[old(pos)]) && pos == old(pos) + 1 && !finished
      ensures old(pos) == |chunks| ==>
        && finished && pos == old(pos)
        && step == (match Verdict(Concat(chunks), digest, sha256Hex) case None => Stop case Some(e) => Raise(e))
    {
      if pos < |chunks| {
        var chunk := chunks[pos];
        assert chunks[..pos + 1][..pos] == chunks[..pos];
        fed := fed + chunk;
        pos := pos + 1;
        step := Yield(chunk);
      } else {
        assert chunks[..pos] == chunks;
        finished := true;
        var dgst := sha256Hex(fed);
        if dgst != digest {
          step := Raise(DigestMismatch(dgst, digest));
        } else {
          step := Stop;
        }
      }
    }
  }

  /**
   * A consumer that iterates the generator to its end: it receives every
   * chunk unchanged and in order, and the error is raised exactly when the
   * hash of the whole body differs from the requested digest, carrying both.
   */
  method PullBlob(chunks: seq<seq<Byte>>, digest: string, sha256Hex: seq<Byte> -> string)
    returns (received: seq<seq<Byte>>, error: Option<Error>)
    ensures received == chunks
    ensures error == Verdict(Concat(chunks), digest, sha256Hex)
  {
    var pull := new BlobPull(chunks, digest, sha256Hex);
    received := [];
    error := None;
    while !pull.finished
      invariant pull.Valid()
      invariant pull.chunks == chunks && pull.digest == digest && pull.sha256Hex == sha256Hex
      invariant !pull.finished ==> received == chunks[..pull.pos] && error.None?
      invariant pull.finished ==> received == chunks && error == Verdict(Concat(chunks), digest, sha256Hex)
      decreases |chunks| - pull.pos, !pull.finished
    {
      var step := pull.Next();
      match step
      case Yield(chunk) =>
        assert chunks[..pull.pos] == chunks[..pull.pos - 1] + [chunk];
        received := received + [chunk];
      case Stop =>
        assert chunks[..pull.pos] == chunks;
      case Raise(e) =>
        assert chunks[..pull.pos] == chunks;
        error := Some(e);
    }
  }

  /**
   * A consumer that stops after `n` chunks has received exactly those, and
   * the generator is left suspended before the digest comparison: it is
   * not finished, the hasher has seen only those chunks, and so no error
   * is raised whatever the body's hash. Only a further `Next` after the
   * last chunk compares the digest.
   */
  method PullSome(chunks: seq<seq<Byte>>, digest: string, sha256Hex: seq<Byte> -> string, n: nat)
    returns (received: seq<seq<Byte>>, pull: BlobPull)
    requires n <= |chunks|
    ensures received == chunks[..n]
    ensures pull.Valid() && pull.chunks == chunks && pull.digest == digest && pull.sha256Hex == sha256Hex
    ensures pull.pos == n && !pull.finished
    ensures pull.fed == Concat(chunks[..n])
  {
    pull := new BlobPull(chunks, digest, sha256Hex);
    received := [];
    while pull.pos < n
      invariant pull.Valid() && !pull.finished
      invariant pull.chunks == chunks && pull.digest == digest && pull.sha256Hex == sha256Hex && pull.pos <= n
      invariant received == chunks[..pull.pos]
      decreases n - pull.pos
    {
      var step := pull.Next();
      assert chunks[..pull.pos] == chunks[..pull.pos - 1] + [step.chunk];
      received := received + [step.chunk];
    }
  }
}
