/** What it means for a chain to be valid: every block after the first names the hash of its
    predecessor and carries a proof that solves the puzzle on top of it. */
module Validation {
  import opened Types
  import opened Hashing

  /** `cur` may follow `prev`: the hash link and the proof both check out. */
  predicate Linked(h: Hasher, prev: Block, cur: Block) {
    cur.previousHash == h.Hash(prev) && h.ValidProof(prev.proof, cur.proof, h.Hash(prev))
  }

  /** Every consecutive pair of the chain is linked. The first block itself is not checked. */
  predicate IsValidChain(h: Hasher, c: seq<Block>) {
    forall i :: 1 <= i < |c| ==> Linked(h, c[i - 1], c[i])
  }

  /** The blocks carry the indices 1, 2, ..., |c| in order. */
  predicate IndicesFromOne(c: seq<Block>) {
    forall i :: 0 <= i < |c| ==> c[i].index == i + 1
  }

  /** A chain of one block is valid whatever that block holds. */
  lemma SingleBlockValid(h: Hasher, b: Block)
    ensures IsValidChain(h, [b])
  {
  }

  /** Appending a block keeps a non-empty chain valid exactly when the block is linked to
      the tip. */
  lemma {:induction false} ValidChainAppend(h: Hasher, c: seq<Block>, b: Block)
    requires c != []
    ensures IsValidChain(h, c + [b]) <==> IsValidChain(h, c) && Linked(h, c[|c| - 1], b)
  {
    var d := c + [b];
    assert forall i :: 0 <= i < |c| ==> d[i] == c[i];
    assert d[|c|] == b;
    if IsValidChain(h, d) {
      forall i | 1 <= i < |c| ensures Linked(h, c[i - 1], c[i]) {
        assert Linked(h, d[i - 1], d[i]);
      }
      assert Linked(h, d[|c| - 1], d[|c|]);
    }
  }

  /** Every prefix of a valid chain is valid. */
  lemma ValidChainPrefix(h: Hasher, c: seq<Block>, n: nat)
    requires IsValidChain(h, c)
    requires n <= |c|
    ensures IsValidChain(h, c[..n])
  {
  }

  /** Rewriting the previous-hash of any non-genesis block of a valid chain makes it invalid. */
  lemma TamperedLinkInvalid(h: Hasher, c: seq<Block>, i: nat, forged: string)
    requires IsValidChain(h, c)
    requires 1 <= i < |c|
    requires forged != c[i].previousHash
    ensures !IsValidChain(h, c[i := c[i].(previousHash := forged)])
  {
    var d := c[i := c[i].(previousHash := forged)];
    assert d[i - 1] == c[i - 1];
    assert !Linked(h, d[i - 1], d[i]);
  }

  /** Replacing the proof of a non-genesis block by one that does not solve the puzzle on
      top of its predecessor makes the chain invalid. */
  lemma TamperedProofInvalid(h: Hasher, c: seq<Block>, i: nat, forged: int)
    requires 1 <= i < |c|
    requires !h.ValidProof(c[i - 1].proof, forged, h.Hash(c[i - 1]))
    ensures !IsValidChain(h, c[i := c[i].(proof := forged)])
  {
    var d := c[i := c[i].(proof := forged)];
    assert d[i - 1] == c[i - 1];
    assert !Linked(h, d[i - 1], d[i]);
  }

  /** Appending the block numbered one past the chain length keeps the numbering. */
  lemma IndicesFromOneAppend(c: seq<Block>, b: Block)
    requires IndicesFromOne(c)
    requires b.index == |c| + 1
    ensures IndicesFromOne(c + [b])
  {
  }
}
