/** The node's ledger: the chain, the pending pool and the set of known peers, with the
    operations that update them in place, and the mining sequence of the `/mine` route. */
module Ledger {
  import opened Types
  import opened Hashing
  import opened Validation
  import opened Consensus

  /** The block every chain starts with, created at time `timestamp`. */
  function Genesis(timestamp: real): Block {
    Block(1, timestamp, [], 100, "1")
  }

  /** The transaction that pays the miner: sender "0" marks newly minted coins. */
  function Reward(nodeIdentifier: string): Transaction {
    Transaction("0", nodeIdentifier, 1)
  }

  class Blockchain {
    const hasher: Hasher
    var currentTransactions: seq<Transaction>
    var chain: seq<Block>
    var nodes: set<string>

    /** The chain always has a tip, and no peer address is empty. */
    ghost predicate Valid()
      reads this
    {
      chain != [] && "" !in nodes
    }

    /** A new ledger holds only the genesis block, no pending transactions and no peers. */
    constructor (h: Hasher, timestamp: real)
      ensures Valid()
      ensures hasher == h
      ensures chain == [Genesis(timestamp)] && currentTransactions == [] && nodes == {}
      ensures IsValidChain(hasher, chain) && IndicesFromOne(chain)
    {
      hasher := h;
      currentTransactions := [];
      chain := [];
      nodes := {};
      new;
      var genesis := NewBlock(100, "1", timestamp);
    }

    /** Adds a peer: its network location when the address has one, otherwise its path.
        An address with neither raises `ValueError`. Adding a known peer changes nothing. */
    method RegisterNode(netloc: string, path: string) returns (r: Outcome)
      requires Valid()
      modifies this`nodes
      ensures Valid()
      ensures netloc != "" ==> r == Pass && nodes == old(nodes) + {netloc}
      ensures netloc == "" && path != "" ==> r == Pass && nodes == old(nodes) + {path}
      ensures netloc == "" && path == "" ==> r == Fail(InvalidUrl) && nodes == old(nodes)
      ensures (netloc in old(nodes) || (netloc == "" && path in old(nodes))) ==> nodes == old(nodes)
    {
      if netloc != "" {
        nodes := nodes + {netloc};
        r := Pass;
      } else if path != "" {
        nodes := nodes + {path};
        r := Pass;
      } else {
        r := Fail(InvalidUrl);
      }
    }

    /** Walks the candidate pairwise from its first block. It reports exactly whether the
        candidate is valid; an empty candidate raises `IndexError`. */
    method ValidChain(candidate: seq<Block>) returns (r: Result<bool>)
      ensures candidate == [] ==> r == Failure(IndexOutOfRange)
      ensures candidate != [] ==> r == Success(IsValidChain(hasher, candidate))
    {
      if candidate == [] {
        return Failure(IndexOutOfRange);
      }
      var lastBlock := candidate[0];
      var currentIndex := 1;
      while currentIndex < |candidate|
        invariant 1 <= currentIndex <= |candidate|
        invariant lastBlock == candidate[currentIndex - 1]
        invariant forall i :: 1 <= i < currentIndex ==> Linked(hasher, candidate[i - 1], candidate[i])
      {
        var block := candidate[currentIndex];
        var lastBlockHash := hasher.Hash(lastBlock);
        if block.previousHash != lastBlockHash {
          assert !Linked(hasher, candidate[currentIndex - 1], candidate[currentIndex]);
          return Success(false);
        }
        if !hasher.ValidProof(lastBlock.proof, block.proof, lastBlockHash) {
          assert !Linked(hasher, candidate[currentIndex - 1], candidate[currentIndex]);
          return Success(false);
        }
        lastBlock := block;
        currentIndex := currentIndex + 1;
      }
      return Success(true);
    }

    /** Scans the peers' responses in order, one response per registered peer, and adopts the longest valid chain whose reported
        length beats the local length, as `Scan` describes; the result says whether the chain
        was replaced. The pool and the peers are not touched, and on `IndexError` neither is
        the chain. */
    method ResolveConflicts(responses: seq<Response>) returns (r: Result<bool>)
      requires Valid()
      requires |responses| == |nodes|
      modifies this`chain
      ensures Valid()
      ensures nodes == {} ==> r == Success(false) && chain == old(chain)
      ensures Scan(hasher, responses, |old(chain)|).Failure? ==>
        r == Failure(IndexOutOfRange) && chain == old(chain)
      ensures Scan(hasher, responses, |old(chain)|).Success? ==>
        var s := Scan(hasher, responses, |old(chain)|).value;
        if s.newChain.Some? then r == Success(true) && chain == s.newChain.value
        else r == Success(false) && chain == old(chain)
      ensures r == Success(true) ==> IsValidChain(hasher, chain)
    {
      var newChain: Option<seq<Block>> := None;
      var maxLength := |chain|;
      var i := 0;
      while i < |responses|
        invariant 0 <= i <= |responses|
        invariant chain == old(chain)
        invariant Scan(hasher, responses[..i], |chain|) == Success(Candidate(maxLength, newChain))
        invariant newChain.Some? ==> newChain.value != [] && IsValidChain(hasher, newChain.value)
      {
        var response := responses[i];
        assert responses[..i + 1][..i] == responses[..i];
        if response.status == 200 {
          var length := response.length;
          var candidate := response.chain;
          if length > maxLength {
            var valid := ValidChain(candidate);
            if valid.Failure? {
              ScanFailurePersists(hasher, responses, i + 1, |chain|);
              ScanFailure(hasher, responses, |chain|);
              return Failure(valid.error);
            }
            if valid.value {
              maxLength := length;
              newChain := Some(candidate);
            }
          }
        }
        i := i + 1;
      }
      assert responses[..|responses|] == responses;
      if newChain.Some? {
        chain := newChain.value;
        return Success(true);
      }
      return Success(false);
    }

    /** Seals the pending pool into a new block on top of the chain. The previous hash is the
        argument unless that is empty (Python's falsy `None` or `''`), in which case it is the
        hash of the tip; that case needs a tip. */
    method NewBlock(proof: int, previousHash: string, timestamp: real) returns (block: Block)
      requires previousHash != "" || chain != []
      modifies this`chain, this`currentTransactions
      ensures block.index == |old(chain)| + 1
      ensures block.timestamp == timestamp && block.proof == proof
      ensures block.transactions == old(currentTransactions)
      ensures block.previousHash ==
        if previousHash != "" then previousHash else hasher.Hash(old(chain)[|old(chain)| - 1])
      ensures chain == old(chain) + [block]
      ensures currentTransactions == []
      ensures "" !in old(nodes) ==> Valid()
      ensures IndicesFromOne(old(chain)) ==> IndicesFromOne(chain)
    {
      block := Block(
        |chain| + 1,
        timestamp,
        currentTransactions,
        proof,
        if previousHash != "" then previousHash else hasher.Hash(chain[|chain| - 1]));
      currentTransactions := [];
      if IndicesFromOne(chain) {
        IndicesFromOneAppend(chain, block);
      }
      chain := chain + [block];
    }

    /** Queues a transaction for the next block and returns the index that block will have:
        one past the tip's index. */
    method NewTransaction(sender: string, recipient: string, amount: int) returns (index: int)
      requires Valid()
      modifies this`currentTransactions
      ensures Valid()
      ensures currentTransactions == old(currentTransactions) + [Transaction(sender, recipient, amount)]
      ensures index == LastBlock().index + 1
      ensures IndicesFromOne(chain) ==> index == |chain| + 1
    {
      currentTransactions := currentTransactions + [Transaction(sender, recipient, amount)];
      index := LastBlock().index + 1;
    }

    /** The tip of the chain: a block of the chain, and on a chain numbered from 1 the one
        whose index is the chain length. */
    function LastBlock(): (b: Block)
      reads this
      requires Valid()
      ensures b in chain
      ensures IndicesFromOne(chain) ==> b.index == |chain|
    {
      chain[|chain| - 1]
    }

    /** Counts up from 0 to the first proof that solves the puzzle on top of `lastBlock`. */
    method ProofOfWork(lastBlock: Block) returns (proof: nat)
      requires hasher.Solvable(lastBlock)
      ensures hasher.ValidProof(lastBlock.proof, proof, hasher.Hash(lastBlock))
      ensures forall q: nat :: q < proof ==> !hasher.ValidProof(lastBlock.proof, q, hasher.Hash(lastBlock))
    {
      var lastProof := lastBlock.proof;
      var lastHash := hasher.Hash(lastBlock);
      ghost var bound: nat :| hasher.ValidProof(lastProof, bound, lastHash);
      proof := 0;
      while !hasher.ValidProof(lastProof, proof, lastHash)
        invariant proof <= bound
        invariant forall q: nat :: q < proof ==> !hasher.ValidProof(lastProof, q, lastHash)
        decreases bound - proof
      {
        proof := proof + 1;
      }
    }
  }

  /** The `/mine` route without its HTTP layer: find the proof on top of the tip, queue the
      reward for this node, and seal the pool into a block linked to the tip. A valid chain
      stays valid. */
  method Mine(bc: Blockchain, nodeIdentifier: string, timestamp: real) returns (block: Block)
    requires bc.Valid()
    requires bc.hasher.Solvable(bc.LastBlock())
    modifies bc
    ensures bc.Valid() && bc.nodes == old(bc.nodes)
    ensures bc.chain == old(bc.chain) + [block]
    ensures block.index == |old(bc.chain)| + 1
    ensures block.timestamp == timestamp
    ensures block.transactions == old(bc.currentTransactions) + [Reward(nodeIdentifier)]
    ensures bc.currentTransactions == []
    ensures var tip := old(bc.LastBlock());
      && block.previousHash == bc.hasher.Hash(tip)
      && bc.hasher.ValidProof(tip.proof, block.proof, bc.hasher.Hash(tip))
      && forall q: nat :: q < block.proof ==> !bc.hasher.ValidProof(tip.proof, q, bc.hasher.Hash(tip))
    ensures IsValidChain(bc.hasher, old(bc.chain)) ==> IsValidChain(bc.hasher, bc.chain)
    ensures IndicesFromOne(old(bc.chain)) ==> IndicesFromOne(bc.chain)
  {
    ghost var chain0, pool0 := bc.chain, bc.currentTransactions;
    var lastBlock := bc.LastBlock();
    var proof := bc.ProofOfWork(lastBlock);
    var _ := bc.NewTransaction("0", nodeIdentifier, 1);
    assert bc.chain == chain0;
    assert bc.currentTransactions == pool0 + [Reward(nodeIdentifier)];
    var previousHash := bc.hasher.Hash(lastBlock);
    block := bc.NewBlock(proof, previousHash, timestamp);
    assert block.previousHash == bc.hasher.Hash(lastBlock);
    assert Linked(bc.hasher, lastBlock, block);
    ValidChainAppend(bc.hasher, chain0, block);
  }

  /** A fresh node that queues one transfer and mines once holds two linked blocks; the second
      holds the transfer followed by the reward. */
  method MineAfterTransfer(h: Hasher, t0: real, t1: real, nodeIdentifier: string)
    returns (chain: seq<Block>)
    requires h.Solvable(Genesis(t0))
    ensures |chain| == 2 && chain[0] == Genesis(t0)
    ensures chain[1].transactions == [Transaction("a", "b", 5), Reward(nodeIdentifier)]
    ensures chain[1].previousHash == h.Hash(chain[0])
    ensures IsValidChain(h, chain) && IndicesFromOne(chain)
  {
    var bc := new Blockchain(h, t0);
    var index := bc.NewTransaction("a", "b", 5);
    assert index == 2;
    var _ := Mine(bc, nodeIdentifier, t1);
    chain := bc.chain;
  }
}
