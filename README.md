# A verified model of a proof-of-work ledger node

This project models the `Blockchain` class of `blockchain.py`, a single node of a
peer-to-peer append-only ledger, together with the mining sequence of its `/mine` route.
The node keeps three pieces of state: the chain of sealed blocks, the pool of pending
transactions, and the set of known peer addresses. It does four things with them:

- It seals the pending pool into a new block linked to the tip by the tip's hash.
- It searches for a proof of work: the first natural number whose combination with the tip's
  proof and hash digests to a string starting with `0000`.
- It validates a candidate chain pair by pair.
- It resolves conflicts by adopting the longest valid peer chain whose reported length beats
  the local length.

Modules, leaf first:

- `Types` (types.dfy): transactions, blocks, the two exceptions the model represents, and the
  `Option`, `Result` and `Outcome` wrappers.
- `Hashing` (hashing.dfy): a `Hasher` holds the two library functions as fields. They are
  SHA-256 over text and the key-sorted JSON serialisation of a block. From them it defines
  the block hash, the puzzle's guess string (decimal proofs followed by the hash) and
  `ValidProof`. Every property in the project holds for every choice of the two functions.
- `Validation` (validation.dfy): `Linked` and `IsValidChain` state what validity means. The
  lemmas say how validity behaves under appending, prefixes and tampering.
- `Consensus` (consensus.dfy): `Scan` describes the longest-chain rule as a function of the
  peers' responses. Each response is a `(status, length, chain)` triple. The lemmas say what
  the rule adopts and when it raises.
- `Ledger` (ledger.dfy): the class `Blockchain`, with fields `chain`, `currentTransactions`
  and `nodes` and the operations that update them in place, plus `Mine`.

Each method over state states its whole new state. The loops (`ValidChain`, `ResolveConflicts`,
`ProofOfWork`) are proved against the specification functions above.

Where the code departs from the intended design of the ledger, the model follows the code:

- Conflict resolution trusts the length a peer REPORTS, not the length of the chain it sends.
  So the chain can get shorter on adoption: `Consensus.OverstatedLengthShrinks` exhibits a
  case. `Consensus.HonestPeersLengthen` proves growth when peers report truthfully.
- `valid_chain` checks neither block indices nor the genesis block. An adopted chain need
  not be numbered 1, 2, … and need not start from the local genesis. That is why index
  numbering (`IndicesFromOne`) is stated as preserved by sealing, not as a class invariant.
- Mining uses sender `"0"` and amount 1 for the reward.
- `valid_chain` on an empty list raises `IndexError`. A peer that answers with status 200 and
  an empty chain reporting a length above the current maximum therefore aborts
  `resolve_conflicts` with that exception. The local chain is left as it was.
- A peer that cannot be reached is not skipped: `requests.get` raises. The model does not
  cover this (see below).

## Model

| member | source | states |
|---|---|---|
| `Ledger.Blockchain.constructor` | blockchain.py:16-22 | the chain is exactly the genesis block (index 1, proof 100, previous hash "1", no transactions), the pool and the peer set are empty, and that chain is valid and numbered from 1 |
| `Ledger.Blockchain.RegisterNode` | blockchain.py:24-35 | a non-empty network location is added; otherwise a non-empty path is added; with both empty it fails with `ValueError` and the peers are unchanged; an already known address leaves the set unchanged; no empty address is ever stored |
| `Ledger.Blockchain.ValidChain` | blockchain.py:38-63 | on a non-empty candidate the walk returns exactly `IsValidChain` (every later block names its predecessor's hash and solves the puzzle on it); on an empty one it raises `IndexError` |
| `Ledger.Blockchain.ResolveConflicts` | blockchain.py:65-94 | it takes one response per registered peer, so with no peers it returns false and keeps the chain; the result and the new chain are those of `Scan` over the responses: true with the chain replaced by the candidate, or false with the chain unchanged, or `IndexError` with the chain unchanged; an adopted chain is valid; the pool and the peers are never touched |
| `Ledger.Blockchain.NewBlock` | blockchain.py:96-113 | appends exactly one block and keeps every earlier block; its index is the old length + 1; its timestamp and proof are the arguments; its transactions are the old pool; its previous hash is the argument when non-empty, else the hash of the old tip; the pool is empty afterwards; the ledger invariant is kept; numbering from 1 is preserved |
| `Ledger.Blockchain.NewTransaction` | blockchain.py:115-128 | exactly one transaction with the given fields is added at the end of the pool; the chain is unchanged; it returns the tip's index + 1, which is the chain length + 1 on a chain numbered from 1 |
| `Ledger.Blockchain.LastBlock` | blockchain.py:130-132 | the tip is a block of the chain (which the constructor makes non-empty and every operation keeps non-empty); on a chain numbered from 1 its index is the chain length, which is why a queued transaction is promised the block numbered length + 1 |
| `Ledger.Blockchain.ProofOfWork` | blockchain.py:144-159 | the returned proof solves the puzzle on top of the given block and no smaller natural number does |
| `Hashing.Hasher.ValidProof` | blockchain.py:161-171 | a proof is valid exactly when the digest of the guess has at least four characters and the first four are all '0'; the guess (`Guess`, with `IntToString` as Python's `str`) is the previous proof and the proof in decimal followed by the previous hash |
| `Ledger.Mine` | blockchain.py:187-202 | the chain grows by exactly one block, stamped with the given time; its proof is the least solving the puzzle on the old tip; its previous hash is the old tip's hash; its transactions are the old pool followed by the reward ("0" to this node, amount 1); the pool ends empty, the peers are unchanged, and a valid chain stays valid |
| `Ledger.MineAfterTransfer` | blockchain.py:187-202 | from a fresh node, one queued transfer a→b of 5 and one mining step give a valid two-block chain whose second block holds the transfer and then the reward and links to the genesis hash |
| `Validation.SingleBlockValid` | blockchain.py:43-46 | a one-block chain is valid |
| `Validation.ValidChainAppend` | blockchain.py:46-61 | a non-empty chain with one more block is valid exactly when the chain is valid and the block is linked to its tip |
| `Validation.ValidChainPrefix` | blockchain.py:46-61 | every prefix of a valid chain is valid |
| `Validation.TamperedLinkInvalid` | blockchain.py:52-54 | changing the previous hash of any non-genesis block of a valid chain makes it invalid |
| `Validation.TamperedProofInvalid` | blockchain.py:56-58 | giving a non-genesis block a proof that does not solve the puzzle on its predecessor makes the chain invalid |
| `Validation.IndicesFromOneAppend` | blockchain.py:101-112 | appending the block numbered length + 1 keeps the numbering 1, 2, …, n |
| `Consensus.ScanFailurePersists` | blockchain.py:77-87 | once the scan over a prefix of the responses raises, the scan over all of them raises |
| `Consensus.ScanFailure` | blockchain.py:80-85 | the only exception is `IndexError`, and some status-200 response sent an empty chain while reporting more than the local length |
| `Consensus.ScanMaxLength` | blockchain.py:74-87 | the final maximum is at least the local length, and equals it when no chain was chosen |
| `Consensus.ScanMaximal` | blockchain.py:80-87 | every status-200 response with a valid chain reports at most the final maximum |
| `Consensus.ScanAdopted` | blockchain.py:80-91 | a chosen chain is the non-empty valid chain of a status-200 response whose reported length is the final maximum and strictly beats the local length, and no earlier acceptable response reported as much (ties do not replace) |
| `Consensus.ScanAdoptsIff` | blockchain.py:80-94 | when the scan succeeds, a chain is chosen if and only if some status-200 response with a valid chain reports more than the local length |
| `Consensus.HonestPeersLengthen` | blockchain.py:81-87 | when every status-200 response reports the true length of its chain, an adopted chain is strictly longer than the local one |
| `Consensus.OverstatedLengthShrinks` | blockchain.py:81-91 | a peer reporting length 5 with a single valid block is adopted over a local chain of length 2 |

## Left out

- The Flask routes, JSON request and response shaping, and the 400/201 answers
  (blockchain.py:175-275) are HTTP plumbing. Only the sequence inside `mine()` is modelled.
- The peer fetch `requests.get` (blockchain.py:78) is network I/O. `ResolveConflicts` receives
  one response per registered peer, as a sequence. That sequence is tied to `nodes` only by
  its length, not by which peer answered what; Python itself leaves the set's iteration order
  unspecified. These cases are not modelled:
  - A fetch that raises.
  - A response body without `length` or `chain`.
  - A peer block without `previous_hash` or `proof`, which raises `KeyError`
    (blockchain.py:53, blockchain.py:57).
  - A non-numeric `length`, which raises `TypeError` (blockchain.py:85).
  - Extra keys in a peer block, which go into its hash (blockchain.py:141). Peer blocks are
    typed `Block` values here.
- `Hashing.Hasher.Hash` is `sha256(canonicalJson(b))`, where both are `Hasher` fields about which
  nothing is assumed. So no contract beyond that definition can be proved. Determinism and
  independence from key order hold because it is a function of a record.
- SHA-256, `str.encode` and `json.dumps(sort_keys=True)` are library calls. They are the
  fields of `Hasher`, so nothing is assumed about them: not the 64-character output, and not
  collision resistance.
- `time()` and `uuid4()` are environmental, so the timestamp and the node identifier are
  parameters. The argparse startup code is left out too.
- `urlparse` is a library call. `RegisterNode` takes the parsed network location and path
  as inputs.
- The debug `print` calls inside `valid_chain` (blockchain.py:48-50) are output only.
- Transaction amounts are integers. Non-integral JSON numbers are not modelled.
- `Ledger.Blockchain.ProofOfWork` requires that some natural number solves the puzzle.
  Without one the source's loop never ends, which the model does not represent.
- `Ledger.Mine` has the same requirement for the tip.
- `Ledger.Blockchain.NewBlock` requires a non-empty previous hash or a non-empty chain. It
  does not model the `IndexError` that `self.chain[-1]` would raise on an empty chain
  (blockchain.py:106). No caller reaches that case: the constructor passes `'1'`
  (blockchain.py:22), and `mine()` passes a hash while the chain is non-empty
  (blockchain.py:201-202).
- There is no locking: the source has none, and interleaving is not a sequential property.
