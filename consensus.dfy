/** The longest-chain rule of conflict resolution, as a function of the peers' responses.
    Each response stands for one `GET /chain` answer: its HTTP status, the length the peer
    reports, and the chain it sends. */
module Consensus {
  import opened Types
  import opened Hashing
  import opened Validation

  datatype Response = Response(status: int, length: int, chain: seq<Block>)

  /** The two variables the scan over the peers updates: the longest length seen so far and
      the chain that reported it, if any has beaten the local chain. */
  datatype Candidate = Candidate(maxLength: int, newChain: Option<seq<Block>>)

  /** One peer: a status-200 response whose reported length beats the current maximum is
      validated, and becomes the candidate when valid. Validating an empty chain raises
      `IndexError` (the validator reads its first block). */
  function Step(h: Hasher, s: Candidate, r: Response): Result<Candidate> {
    if r.status == 200 && r.length > s.maxLength then
      if r.chain == [] then Failure(IndexOutOfRange)
      else if IsValidChain(h, r.chain) then Success(Candidate(r.length, Some(r.chain)))
      else Success(s)
    else Success(s)
  }

  /** The state after the responses `rs` were handled in order, starting from the local
      chain's length and no candidate. An exception ends the scan. */
  function Scan(h: Hasher, rs: seq<Response>, localLength: int): Result<Candidate>
    decreases |rs|
  {
    if rs == [] then Success(Candidate(localLength, None))
    else
      match Scan(h, rs[..|rs| - 1], localLength)
      case Failure(e) => Failure(e)
      case Success(s) => Step(h, s, rs[|rs| - 1])
  }

  /** A response the rule would accept if it were long enough: status 200 and a valid chain. */
  predicate Acceptable(h: Hasher, r: Response) {
    r.status == 200 && IsValidChain(h, r.chain)
  }

  /** Once a prefix of the responses raised, the whole scan raises. */
  lemma {:induction false} ScanFailurePersists(h: Hasher, rs: seq<Response>, k: nat, localLength: int)
    requires k <= |rs|
    requires Scan(h, rs[..k], localLength).Failure?
    ensures Scan(h, rs, localLength).Failure?
    decreases |rs| - k
  {
    if k < |rs| {
      var p := rs[..k + 1];
      assert p[..|p| - 1] == rs[..k];
      ScanFailurePersists(h, rs, k + 1, localLength);
    } else {
      assert rs[..k] == rs;
    }
  }

  /** The only exception is `IndexError`, and it comes from a status-200 response that sent
      an empty chain while reporting a length above the local one. */
  lemma {:induction false} ScanFailure(h: Hasher, rs: seq<Response>, localLength: int)
    requires Scan(h, rs, localLength).Failure?
    ensures Scan(h, rs, localLength).error == IndexOutOfRange
    ensures exists i :: 0 <= i < |rs| && rs[i].status == 200 && rs[i].chain == [] && rs[i].length > localLength
    decreases |rs|
  {
    var init := rs[..|rs| - 1];
    var last := rs[|rs| - 1];
    match Scan(h, init, localLength)
    case Failure(_) =>
      ScanFailure(h, init, localLength);
      var i :| 0 <= i < |init| && init[i].status == 200 && init[i].chain == [] && init[i].length > localLength;
      assert rs[i] == init[i];
    case Success(s) =>
      ScanMaxLength(h, init, localLength);
      assert rs[|rs| - 1] == last;
  }

  /** The maximum never falls below the local length, and equals it when no chain was chosen
      (`ScanAdopted` says which response reported it otherwise). */
  lemma {:induction false} ScanMaxLength(h: Hasher, rs: seq<Response>, localLength: int)
    requires Scan(h, rs, localLength).Success?
    ensures Scan(h, rs, localLength).value.maxLength >= localLength
    ensures Scan(h, rs, localLength).value.newChain.None? ==>
      Scan(h, rs, localLength).value.maxLength == localLength
    decreases |rs|
  {
    if rs != [] {
      ScanMaxLength(h, rs[..|rs| - 1], localLength);
    }
  }

  /** Every acceptable response reports at most the final maximum: no status-200 valid
      chain that claims to be longer is passed over. */
  lemma {:induction false} ScanMaximal(h: Hasher, rs: seq<Response>, localLength: int, j: nat)
    requires Scan(h, rs, localLength).Success?
    requires j < |rs|
    requires Acceptable(h, rs[j])
    ensures rs[j].length <= Scan(h, rs, localLength).value.maxLength
    decreases |rs|
  {
    var init := rs[..|rs| - 1];
    assert Scan(h, init, localLength).Success?;
    var s := Scan(h, init, localLength).value;
    if j < |init| {
      assert init[j] == rs[j];
      ScanMaximal(h, init, localLength, j);
    }
  }

  /** A chosen chain came from a status-200 response whose chain is non-empty and valid,
      whose reported length is the final maximum and beats the local length, and no earlier
      acceptable response reported as much: ties do not replace. */
  lemma {:induction false} ScanAdopted(h: Hasher, rs: seq<Response>, localLength: int)
    requires Scan(h, rs, localLength).Success?
    requires Scan(h, rs, localLength).value.newChain.Some?
    ensures var s := Scan(h, rs, localLength).value;
      exists i :: 0 <= i < |rs| && Acceptable(h, rs[i]) && rs[i].chain != []
        && rs[i].chain == s.newChain.value && rs[i].length == s.maxLength
        && s.maxLength > localLength
        && forall j :: 0 <= j < i && Acceptable(h, rs[j]) ==> rs[j].length < s.maxLength
    decreases |rs|
  {
    var s := Scan(h, rs, localLength).value;
    var init := rs[..|rs| - 1];
    var last := rs[|rs| - 1];
    assert Scan(h, init, localLength).Success?;
    var t := Scan(h, init, localLength).value;
    ScanMaxLength(h, init, localLength);
    if last.status == 200 && last.length > t.maxLength && IsValidChain(h, last.chain) {
      // The last response is the one adopted.
      forall j | 0 <= j < |rs| - 1 && Acceptable(h, rs[j]) ensures rs[j].length < s.maxLength {
        assert init[j] == rs[j];
        ScanMaximal(h, init, localLength, j);
      }
    } else {
      // The candidate was already chosen among the earlier responses.
      ScanAdopted(h, init, localLength);
      var i :| 0 <= i < |init| && Acceptable(h, init[i]) && init[i].chain != []
        && init[i].chain == t.newChain.value && init[i].length == t.maxLength
        && t.maxLength > localLength
        && forall j :: 0 <= j < i && Acceptable(h, init[j]) ==> init[j].length < t.maxLength;
      assert rs[i] == init[i];
      forall j | 0 <= j < i && Acceptable(h, rs[j]) ensures rs[j].length < s.maxLength {
        assert rs[j] == init[j];
      }
    }
  }

  /** When the scan succeeds, a chain is chosen exactly when some acceptable response reports
      a length strictly greater than the local one. */
  lemma ScanAdoptsIff(h: Hasher, rs: seq<Response>, localLength: int)
    requires Scan(h, rs, localLength).Success?
    ensures Scan(h, rs, localLength).value.newChain.Some? <==>
      exists j :: 0 <= j < |rs| && Acceptable(h, rs[j]) && rs[j].length > localLength
  {
    var s := Scan(h, rs, localLength).value;
    if s.newChain.Some? {
      ScanAdopted(h, rs, localLength);
    } else {
      ScanMaxLength(h, rs, localLength);
      forall j | 0 <= j < |rs| && Acceptable(h, rs[j]) ensures rs[j].length <= localLength {
        ScanMaximal(h, rs, localLength, j);
      }
    }
  }

  /** With peers that report the true length of the chain they send, an adopted chain is
      strictly longer than the local one. */
  lemma HonestPeersLengthen(h: Hasher, rs: seq<Response>, localLength: int)
    requires forall i :: 0 <= i < |rs| && rs[i].status == 200 ==> rs[i].length == |rs[i].chain|
    requires Scan(h, rs, localLength).Success?
    requires Scan(h, rs, localLength).value.newChain.Some?
    ensures |Scan(h, rs, localLength).value.newChain.value| > localLength
  {
    ScanAdopted(h, rs, localLength);
  }

  /** The reported length is trusted: a peer that claims 5 blocks but sends one valid block
      replaces a local chain of two, so the chain can get shorter. */
  lemma OverstatedLengthShrinks(h: Hasher, b: Block)
    ensures Scan(h, [Response(200, 5, [b])], 2) == Success(Candidate(5, Some([b])))
  {
  }
}
