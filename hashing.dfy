/** Block hashing and the proof-of-work puzzle. SHA-256 and the canonical JSON serialisation
    are library calls; they are the two fields of a `Hasher`, so every property below holds
    for any choice of them. */
module Hashing {
  import opened Types

  /** The puzzle is solved when the hex digest of the guess starts with these characters. */
  const ProofPrefix: string := "0000"

  function DigitChar(d: nat): char
    requires d < 10
  {
    "0123456789"[d]
  }

  /** Decimal notation of a natural number, as Python's `str` writes it. */
  function NatToString(n: nat): (s: string)
    ensures |s| >= 1
  {
    if n < 10 then [DigitChar(n)] else NatToString(n / 10) + [DigitChar(n % 10)]
  }

  /** Decimal notation of an integer, with a leading minus sign when negative. */
  function IntToString(i: int): (s: string)
    ensures |s| >= 1
  {
    if i < 0 then "-" + NatToString(-i) else NatToString(i)
  }

  /** `sha256` maps the text that is hashed to its hex digest; `canonicalJson` is
      `json.dumps(block, sort_keys=True)`. */
  datatype Hasher = Hasher(sha256: string -> string, canonicalJson: Block -> string) {

    /** The hash of a block: the digest of its key-sorted JSON text. */
    function Hash(b: Block): string {
      sha256(canonicalJson(b))
    }

    /** The text hashed by the puzzle: the previous proof, the candidate proof and the
        previous block's hash, written one after the other. */
    function Guess(lastProof: int, proof: int, lastHash: string): string {
      IntToString(lastProof) + IntToString(proof) + lastHash
    }

    /** A candidate proof is valid when the digest of the guess begins with four zeros. */
    predicate ValidProof(lastProof: int, proof: int, lastHash: string)
      ensures ValidProof(lastProof, proof, lastHash) <==>
        var g := sha256(Guess(lastProof, proof, lastHash));
        |g| >= 4 && forall k :: 0 <= k < 4 ==> g[k] == '0'
    {
      var g := sha256(Guess(lastProof, proof, lastHash));
      |g| >= |ProofPrefix| && g[..|ProofPrefix|] == ProofPrefix
    }

    /** Some natural number solves the puzzle on top of block `b`; without it the
        search for a proof does not stop. */
    ghost predicate Solvable(b: Block) {
      exists p: nat :: ValidProof(b.proof, p, Hash(b))
    }
  }
}
