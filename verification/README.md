# Proofs about Qsafe's protocol and data-structure engines

This project models the stateful cores of Qsafe in Dafny and proves what they are for. Every
cryptographic primitive is abstract: hashes are functions (soundness results exhibit a concrete
collision instead of assuming injectivity), AEAD is deterministic authenticated encryption, keys of the
ratchets are free terms. Everything around the primitives is modelled as the C code does it: the same
branches, bounds, constants, refusals and update order. Code that updates structs, arrays and buffers is
a class or a method with loops, proved equal to a specification function; the theorems are about those
functions and the runs built from them.

| part | modules | source |
|---|---|---|
| RFC 6962 Merkle log, transparency log | Merkle, MerkleProver, TransLog | src/merkle.c, src/translog.c |
| PQ-TreeKEM | TreeMath, TreeKem, TreeKemMember, TreeKemGroup, TreeKemOutcome, TreeKemSecrecy, TreeKemForward | src/treekem.c |
| Double Ratchet (classical, periodic PQ, header-encrypted) | Ratchet, RatchetSession, RatchetRun, RatchetDelivery | src/ratchet.c |
| Shamir sharing over GF(256) | Gf256, GfTables, Shamir, ShamirShares | src/sss.c |
| Sender-key groups | Group, GroupSession | src/group.c |
| Vault v2 | VaultSlot, VaultDir, VaultRanges, Vault, VaultOpening, VaultRewrite, VaultCommands, VaultRuns, VaultTidy, VaultRefusals, VaultAccept, VaultImage, VaultSeal, VaultSession | src/vault.c |
| Framed container, streaming sink, size padding | Framing, Container, ContainerWriter, ContainerReader, ContainerSigned, ContainerSink, Padme | src/crypto_utils.c |
| Bech32, base64, stanzas | BitGroups, Charset, Bech32, Bech32Text, Bech32Codec, Base64, Stanza | src/age_plugin.c |

Common and Bytes hold integer, bit and byte-order helpers. `dafny verify dfyconfig.toml` checks
everything.

How the hard parts are argued:

* **Merkle.** The recursive prover splits at a power of two, the iterative verifier climbs level by
  level. Both are related to `Up`, the list of nodes one level higher: a root, an audit path and a
  subproof of D are those of `Up(D)` with at most one hash in front. The verifier's loop is then an
  induction over levels. Soundness is an extractor: a function that walks a wrong proof and returns two
  different pairs of digests with the same parent hash.
* **TreeKEM.** The public tree is a function of the operations; every member's view equals it, with
  private keys exactly on its own path (`InStep`). Secrecy is an exact invariant: the attacker's
  deduction closure meets the keys in the tree in precisely the keys above compromised leaves, so "known"
  is characterised with if and only if. Forward secrecy is exact too: every key is linked to the nearest
  populated node above it, by hashing or by a box to an older key, so a derivation of an old root secret can
  be followed down to the one leaked atom it starts from.
* **Ratchet.** A run is described by its history of sending chains; party state is a function of the
  history, and the stash is exactly the messages that are due and unread. Key terms of different messages
  differ by root depth and chain position.
* **GF(256).** Multiplying by 3 is a linear map; exp is its iteration and log its inverse, which exists
  by counting because 3 has order 255. The field laws follow from linearity, and the tables agree with
  polynomial multiplication modulo 0x11b.
* **Vault.** A rewrite is a list of sealed pieces; disjoint pieces all read back; a directory read back
  along its chain is the directory written, if its fields are within the bounds the parser trusts. A
  command is one rewrite, a run of commands refines a map. Every accepted command leaves its volumes apart
  in the container, which makes the reasons for the next refusal exact.
* **Container.** Encoder and reader are both related to one recursive definition of the frames of a
  stream, the sink to one direct split of a stream, so chunking cannot matter. The verdict is then a property
  of the parts, and the signed bytes determine the parts.

Results where code and expectation part, each stated as the exact condition:

* `split` (src/merkle.c:38) never returns for n above 2^63 (`SplitTerminatesIff`).
* A prefix of size 0 is consistent with any root (`EmptyPrefixUnchecked`, src/merkle.c:148).
* `sss_split_to_files` accepts secrets longer than 2^24 bytes that `sss_join_files` refuses, and makes up to
  255 shares of which it takes at most 16 (`SplitThenJoin`, `SeventeenShares`, src/sss.c:81, 179 and 200).
  Only library callers can hand it more: the command line stops at 16 arguments (src/main.c:709).
* A commit that a member refuses is not without effect on it: its public keys are installed, up to the first
  node out of range, and the private keys they replace are dropped (`RefusedTree`, src/treekem.c:194-201);
  the stored root secret stays. A ratchet packet that fails changes nothing (`FailureKeepsState`).
* A root secret of the tree outlives its epoch in other members' keys: a later leak gives it away exactly if
  the member still stores it, or has not renewed its keys since before that commit and all keys of its last
  renewal that were in the tree then are still in use (`RootSecrecy`, `CommitterTells`, src/treekem.c:160-237).
* Nothing compares the passphrases of a vault command line. A volume kept twice, or kept while it is itself
  rewritten, is refused because two anchors meet (`SharedPassRefused`, `RepeatedPassRefused`,
  src/vault.c:899-998 and 1175-1207); the acceptance conditions say so.
* Every share file carries the digest of the secret, so fewer than t files do say something: exactly the
  secret's length and digest, and one file confirms a guess (`FewFilesAgreeIff`, `OneFileConfirms`,
  src/sss.c:123).
* After message 2^32-1 the group receiver's index wraps to 0: a frame leaves the receiver past its index
  exactly if that is not the last one, and keys still stashed are then refused (`WrapsIff`,
  `WrapStrandsStash`, `LastTwoFrames`, src/group.c:168).
* First fit may offer room outside the container when some range starts beyond it; it is exact for a
  request exactly if that is within the longest free run of the container or beyond that of the container
  stretched to the last start (`OverreachExample`, `FirstFitExactIff`, `AlwaysExactIff`, src/vault.c:863).
  In containers made by the commands it is always exact, and an overreaching place is always refused
  (`AutomaticPlacement`, `RunFromNew`, `OverreachRefused`).
* An added entry with a KDF cost outside 2^14..2^22 is accepted and makes the whole volume unreadable
  (`AddOpensIff`, `AddUnreadable`, src/vault.c:319 and 1280). Only a caller that sets scrypt_n itself
  reaches this: the command line restricts the cost to that range (src/main.c:792).
* The stanza reader cuts lines where fgets and strlen do: a NUL in a full body line ends the body, and a
  command line one character short of the buffer loses its body. Reading back and skipping are exact for
  exactly the other inputs (`Stanza.RoundTripIff`, `ForeignBodyIff`, `NulEndsBody`, `LongLineLosesBody` with
  `LongLineExists`, src/age_plugin.c:276-315).
* `bech32_encode` takes any prefix, but its text decodes to the same prefix exactly if that is printable, not
  empty and not upper case (`Bech32Text.RoundTripIff`, src/age_plugin.c:112-199).
* A pinned signer is not required of an unsigned container: `--signer` (src/main.c:92) and the API comment
  (include/crypto_utils.h:150-152) speak of authentication by the given signer, but src/crypto_utils.c:1649
  accepts an unsigned stream before it looks at the pin. What is accepted under a pin was signed by the pinned
  key's owner exactly if its metadata says it is signed (`PinnedIsSigned`, `UnsignedPassesPin`).
* Padmé wraps to 0 above 2^64-2^57 (`PaddedAtLeastIff`, src/crypto_utils.c:901).

## Model

| member | source | states |
|---|---|---|
| Merkle.SplitTerminatesIff | src/merkle.c:38 | On a 64-bit register the doubling loop reaches n exactly when n <= 2^63 |
| MerkleProver.MthRange | src/merkle.c:43-52 | The recursive slice computation returns the tree hash of leaves[lo..hi] |
| MerkleProver.PathRange | src/merkle.c:60-72 | Appends exactly the audit path of a leaf to the proof buffer, within its capacity |
| MerkleProver.SubproofRange | src/merkle.c:114-129 | Appends exactly SUBPROOF of the slice to the proof buffer, within its capacity |
| MerkleProver.InclusionProof | src/merkle.c:74-80 | Refuses m >= n with the buffer untouched, else serves the audit path |
| MerkleProver.ConsistencyProofMethod | src/merkle.c:131-138 | Refuses m = 0 and m > n, serves the empty proof for m = n, else SUBPROOF |
| Merkle.SplitMethod | src/merkle.c:36-40 | The doubling loop ends on 2 <= n <= 2^63 with the largest power of two below n |
| Merkle.SplitIsPow2 | src/merkle.c:35-40 | The split point is a power of two with 2^j < n <= 2^(j+1) |
| Merkle.MthUp | src/merkle.c:43-52 | The recursive root equals the root of the nodes one level up, so it can be computed level by level |
| Merkle.PathUp | src/merkle.c:60-72 | An audit path is the sibling, if any, and then the audit path one level up |
| Merkle.SubproofUp | src/merkle.c:114-129 | For an even prefix the subproof is that of the level above |
| Merkle.SubproofOdd | src/merkle.c:114-129 | For an odd prefix it is the last old leaf (unless known) followed by that leaf's audit path |
| Merkle.PathLength | src/merkle.c:60-72 | Every audit path has at most ceil(log2 n) hashes |
| Merkle.SubproofLength | src/merkle.c:114-129 | Every consistency proof has at most ceil(log2 n) + 1 hashes |
| MerkleProver.ProofsFit | src/merkle.c:58-138 | For up to 2^63 leaves all proofs fit MERKLE_MAX_PROOF |
| Merkle.WalkComplete | src/merkle.c:150-179 | The fn/sn loop, fed the old last node's audit path, ends with both true roots |
| Merkle.ConsistencyComplete | src/merkle.c:113-179 | For all leaves and 0 < m <= n the served proof exists, is accepted against both true roots, and is short |
| Merkle.InclusionComplete | src/merkle.c:58-111 | Every leaf's audit path is accepted and has at most ceil(log2 n) hashes |
| Merkle.RebuildComplete | src/merkle.c:83-100 | The rebuild recursion reads exactly the hashes of a true path, wherever it lies in the buffer |
| Merkle.WalkSound | src/merkle.c:165-179 | A walk that ends at the true larger root started from the true node with the true path, or a concrete collision is returned |
| Merkle.ConsistencySound | src/merkle.c:143-180 | Acceptance with the larger root being MTH(D) and m >= 1 makes the smaller root MTH(D[..m]) and the proof the only served one, or a concrete collision is returned |
| Merkle.EmptyPrefixUnchecked | src/merkle.c:148 | For m = 0 any pair of roots is accepted with the empty proof and only with it |
| Merkle.InclusionSound | src/merkle.c:102-111 | Acceptance against MTH(D) makes the leaf D[m] and the proof its audit path, or a concrete collision is returned |
| Merkle.RootBinds | src/merkle.c:43-56 | Equal roots at equal size mean equal leaves, or a concrete collision is returned |
| Merkle.ConsistencyExact | src/merkle.c:143-180 | Against the root of D and for every claimed old size, first root and proof: accepted exactly if the old size is at most n and the root and proof are those of the prefix, short of a concrete collision; 0 as the old size is told apart |
| Merkle.InclusionExact | src/merkle.c:102-111 | Against the root of D and for every index, leaf and proof: accepted exactly if the index exists and leaf and path are the true ones, short of a concrete collision |
| MerkleProver.VerifyConsistencyMethod | src/merkle.c:143-180 | The shifting loops, early returns included, decide the recursive definition for all m, n and proofs |
| MerkleProver.WalkClimbs | src/merkle.c:172 | On the right edge of both trees the inner loop jumps to the next level with a left sibling |
| TransLog.SthBytesInjective | src/translog.c:16-25 | Two heads with the same signed bytes are the same head |
| TransLog.Log.Append | src/translog.c:91-102 | Appends one leaf hash, growing the array when full; a failed growth leaves the log unchanged |
| TransLog.Log.Head | src/translog.c:110-114 | The head carries the size and root of everything appended so far |
| TransLog.Log.ProveInclusion | src/translog.c:116-120 | Served for exactly the existing indices, and is the audit path in the current log |
| TransLog.Log.ProveConsistency | src/translog.c:122-126 | Served for exactly 0 < old size <= n, and is the proof at the current size |
| TransLog.LogInclusionExact | src/translog.c:45-52 | A client accepts the log's own proof of an entry, and nothing else short of a collision |
| TransLog.GossipSymmetric | src/translog.c:60-74 | The verdict does not depend on which head is named first |
| TransLog.GossipBadSigIff | src/translog.c:63-65 | BADSIG is answered if and only if the log key rejects the signed bytes of one of the heads |
| TransLog.VerdictAboutSigned | src/translog.c:60-74 | With a key under which only a set of heads was signed, every other verdict is about two heads of that set |
| TransLog.SameSizeForkIff | src/translog.c:66-68 | Signed heads of one size are a fork exactly if their roots differ, whatever the proof |
| TransLog.GossipAgreesWithClient | src/translog.c:69-73 | Signed heads of different sizes are consistent exactly if a client would move from the smaller to the larger with that proof |
| TransLog.ForkIff | src/translog.c:60-74 | Of two signed true heads, nonempty: consistent if one history is a prefix of the other and the proof is the served one; in every other case, so for every proof if it is no prefix, FORK or a concrete collision |
| TransLog.EmptyHistoryVerdict | src/translog.c:60-74 | A signed head of size 0 is consistent with any larger one exactly under the empty proof, whatever its root says |
| TransLog.HonestLogConsistent | src/translog.c:60-126 | Any two nonempty signed heads of one append history pass, in either order, with the proof the log serves |
| TransLog.ConsistentMeansPrefix | src/translog.c:60-74 | CONSISTENT implies that the smaller head's leaves are a prefix of the larger one's, or a collision is returned |
| TransLog.ChainSound | src/translog.c:54-74 | Along any chain of pairwise verified heads, every head is the root of a prefix of the last one's leaves, or a collision is returned |
| TransLog.SizesGrow | src/translog.c:54-58 | Along such a chain sizes never shrink |
| TransLog.ClientMovesIff | src/translog.c:54-58 | A client moves from the head of E to that of D if E is a prefix of D and the proof the served one, and otherwise only with a concrete collision; never to a smaller head |
| TransLog.HonestLogFollowed | src/translog.c:54-126 | A client with the served proofs follows any list of nonempty heads of one append history if and only if their sizes never shrink |
| TreeKem.CopathFits | src/treekem.c:83-89 | A copath resolution never exceeds TREEKEM_MAX_RES, so the bound in the sealing loop drops nobody |
| TreeKem.DepthBound | src/treekem.c:153-181 | A commit has between 1 and TREEKEM_MAX_PATH steps |
| TreeKem.ResolutionCovers | src/treekem.c:83-89 | A populated leaf below a node lies below exactly one node of its resolution |
| TreeKemGroup.InstallHonest | src/treekem.c:193-201 | Installing an honest commit sets exactly the committer's path keys and drops the stale private halves |
| TreeKemGroup.FindSecretHonest | src/treekem.c:203-220 | A member finds a secret exactly at its lowest common ancestor with the committer, and it is that node's path secret |
| TreeKemGroup.RederiveAll | src/treekem.c:222-237 | Re-deriving upwards re-keys exactly the ancestors and yields the committer's root secret |
| TreeKemGroup.ProcessHonest | src/treekem.c:188-237 | Every other member in step accepts an honest commit, stays in step, and gets the committer's root secret |
| TreeKemGroup.CommitInStep | src/treekem.c:137-186 | The committer itself stays in step with the new public tree |
| TreeKemGroup.BlankInStep | src/treekem.c:243-252 | A removal keeps every other member in step |
| TreeKemGroup.AddInStep | src/treekem.c:261-272 | An addition keeps every other member in step |
| TreeKemGroup.ImportInStep | src/treekem.c:274-297 | A joiner that imports an exported tree is in step |
| TreeKemGroup.StartInSync | src/treekem.c:117-135 | Members initialised from one list of leaf keys are in step |
| TreeKemGroup.ApplyKeepsSync | src/treekem.c:137-297 | Each operation keeps the public tree common and every member's private keys exactly those of the populated nodes on its path |
| TreeKemGroup.RunsConverge | src/treekem.c:137-297 | After any run of commits, additions and removals all members agree, and after a commit all hold the same root secret |
| TreeKemGroup.CommitCopies | src/treekem.c:160-167 | A commit seals exactly one copy that opens for each other populated leaf, none for the committer |
| TreeKemGroup.LateImport | src/treekem.c:282-297 | A joiner may import before or after the commit it processes: the result is the same and a success |
| TreeKemMember.Member.ResolutionInto | src/treekem.c:83-89 | Appends exactly the resolution, left to right |
| TreeKemMember.Member.SealCopath | src/treekem.c:160-167 | Seals the path secret to every node of the copath resolution, in order |
| TreeKemMember.Member.CommitUpdate | src/treekem.c:137-186 | The climbing loop leaves the state and the commit message of the specification |
| TreeKemMember.Member.Process | src/treekem.c:188-237 | The three phases give the return code and state of the specification for every commit, honest or not; ProcessOutcome says which |
| TreeKemMember.Member.FindOpenable | src/treekem.c:203-220 | Both search loops return the first secret that opens |
| TreeKemOutcome.ProcessOutcome | src/treekem.c:188-237 | For every commit, honest or not: invalid input unless it is another member's with nodes of the tree; otherwise success if and only if some copy on a copath step over the own leaf is sealed to a private key the member still holds on its path after the new keys are installed, and then the root secret is the one hashed up from the first such copy; in every other case an integrity error, with the stored root secret unchanged |
| TreeKemOutcome.ReadTree | src/treekem.c:193-237 | After a commit that is read, honest or not: both halves of the keys hashed up from the secret of the first readable copy, on the path from its node to the root; elsewhere the commit's public keys, or what was there |
| TreeKemOutcome.RefusedTree | src/treekem.c:188-220 | After a refused commit: nothing has changed if its length or sender is at fault; otherwise its public keys are in, up to the first node that is none of the tree, and the private halves they replace are gone |
| TreeKemOutcome.FindSecretIs | src/treekem.c:203-220 | The search gives the first copy that opens, in the order of steps and copies, or there is none |
| TreeKemOutcome.StaleRefused | src/treekem.c:188-252 | An honest commit to a tree in which all keys on a member's path are newer than any it holds is refused by it: invalid if it is named as the sender, integrity error otherwise; the root secret stays |
| TreeKemOutcome.RemovedStaysOut | src/treekem.c:188-252 | Over every run after its removal, with any commits, removals and joins, also into its own leaf, the removed member is refused by every commit and keeps the root secret of before |
| TreeKemMember.Member.BlankLeaf | src/treekem.c:243-252 | Zeroes a leaf and its ancestors; ignores an index that is no leaf |
| TreeKemMember.Member.AddLeaf | src/treekem.c:261-272 | Seats a key and blanks its ancestors; answers invalid input for an index that is no leaf, with the tree unchanged |
| TreeKemMember.Member.FreeLeaf | src/treekem.c:254-259 | The first blank leaf, or -1 exactly when every leaf is populated |
| TreeKemMember.Member.Export | src/treekem.c:274-280 | The public key of every node and nothing else |
| TreeKemMember.Member.Import | src/treekem.c:282-297 | A joiner gets the public snapshot with its own leaf key, or a refusal of a bad size or an index that is no leaf |
| TreeKemSecrecy.OnlyExposed | src/treekem.c:137-186 | In a guarded state no deduction reaches a key or secret in use outside the paths of compromised leaves |
| TreeKemSecrecy.KeyKnownIff | src/treekem.c:137-186 | The attacker can derive a node's private key if and only if a compromised leaf lies below it |
| TreeKemSecrecy.HappensGuarded | src/treekem.c:137-297 | Every commit, state compromise, removal and join keeps the guard |
| TreeKemSecrecy.RunGuarded | src/treekem.c:137-297 | So the characterisation holds in every state of every run |
| TreeKemSecrecy.StartGuarded | src/treekem.c:117-135 | The initial group is guarded |
| TreeKemSecrecy.RootKnownIff | src/treekem.c:153-181 | Right after a commit its root secret is derivable if and only if some current member is compromised |
| TreeKemSecrecy.RunNothingOld | src/treekem.c:137-252 | Such a run reveals nothing from before it |
| TreeKemSecrecy.LeakBeforeRenewal | src/treekem.c:169-172 | Renewal is needed: any member's state right after a commit gives its root secret |
| TreeKemSecrecy.NothingNewAboutOld | src/treekem.c:137-186 | Later traffic makes no older secret derivable that was not |
| TreeKemSecrecy.HurtStaysEmpty | src/treekem.c:137-252 | A healed group stays healed while nothing leaks |
| TreeKemForward.CommitLinked | src/treekem.c:137-186 | After a commit, for each populated node and the nearest one above it, the upper secret is hashed from the lower one, or is newer and was sealed to it: no copath node is left out |
| TreeKemForward.HappensWoven | src/treekem.c:137-297 | Every event keeps each key linked to the nearest populated node above it, and every box in use sealed to an older key right below |
| TreeKemForward.RunWoven | src/treekem.c:137-297 | So does every run |
| TreeKemForward.StartWoven | src/treekem.c:117-135 | and the initial group is so linked |
| TreeKemForward.OnlyLeading | src/treekem.c:137-186 | A derivation of the root secret starts from a secret in use, from a key to which the secret right above was sealed, or from the root secret itself |
| TreeKemForward.LeadingKeyClimbs | src/treekem.c:160-181 | and each such key derives the root secret |
| TreeKemForward.KeptIff | src/treekem.c:188-272 | In any later tree a member still has such a key exactly if it has not renewed its keys since before the commit and all keys of its last renewal then in the tree are still in use |
| TreeKemForward.RootSecrecy | src/treekem.c:137-297 | Over all runs: a commit's root secret is derivable at the end if and only if a compromised leaf survived the commit, or some later leak is of a member that stores it or is in that situation |
| TreeKemForward.RootSecrecyInRun | src/treekem.c:137-297 | The same for every commit of a run |
| TreeKemForward.HealedGroup | src/treekem.c:137-297 | Once removed members are blanked and compromised ones have committed, later leaks decide alone, by the same condition |
| TreeKemForward.RenewedTellNothing | src/treekem.c:137-297 | No leak of a member that renewed its keys since the commit meets it |
| TreeKemForward.CommitterTells | src/treekem.c:169-172 | The committer itself gives its root secret away only while it stores it |
| Ratchet.FindSkipped | src/ratchet.c:239-245 | Finds an entry of that ratchet key and index, or there is none |
| Ratchet.FindBoxed | src/ratchet.c:615-624 | Finds an entry whose header key opens the header and whose key and index it names, or there is none |
| Ratchet.DecapsIff | src/ratchet.c:294-304 | A decapsulation gives a given secret exactly if it was encapsulated to the own key: implicit rejection gives another |
| RatchetSession.Session.SkippedFind | src/ratchet.c:239-245 | The search loop finds the first entry |
| RatchetSession.Session.SkippedRemove | src/ratchet.c:247-253 | Closes the gap and changes nothing else |
| RatchetSession.Session.SkipMessageKeys | src/ratchet.c:256-273 | Advances to `until` with the passed keys stashed, or refuses for the specified reason and changes nothing; never overfills the stash |
| RatchetSession.Session.DhRatchetStep | src/ratchet.c:281-353 | The in-place classical or PQ step gives the specified state; it fails only on a degenerate key, with the counters restarted and the peer's keys already taken over |
| RatchetSession.Session.DhRatchetHeStep | src/ratchet.c:549-574 | The header-encrypted step gives the specified state; it fails only on a degenerate key, with the peer's key and the next header keys already taken over |
| RatchetSession.Session.EncryptMessage | src/ratchet.c:364-401 | Header, body and new state for both forms, or refusal of a missing chain or a text over INT32_MAX bytes with the state unchanged |
| RatchetSession.Session.DecryptMessage | src/ratchet.c:419-490 | The working-copy code gives the specified outcome and state for every packet |
| RatchetSession.Session.DecryptBoxed | src/ratchet.c:603-658 | Likewise for header encryption: stash, current key, next key, in this order |
| RatchetRun.KemLockstep | src/ratchet.c:294-313 | The KEM secret a receiver mixes into a chain is the one its sender mixed, through rotations and lite messages |
| RatchetRun.SkipStep | src/ratchet.c:256-273 | Skipping stashes exactly the passed messages of the current chain with their true keys |
| RatchetRun.ConsumeStep | src/ratchet.c:477-483 | Opening the next message keeps the invariant with one more message read |
| RatchetRun.StashedStep | src/ratchet.c:455-462 | Opening a stashed message keeps the invariant with one more message read |
| RatchetRun.RatchetStep | src/ratchet.c:281-353 | A step on the peer's new key keeps the invariant, in all three forms |
| RatchetRun.KemNext | src/ratchet.c:318-340 | The sending half continues the KEM schedule of the history |
| RatchetDelivery.SendStep | src/ratchet.c:364-401 | Encryption emits the next genuine message of the own chain and keeps the invariant |
| RatchetDelivery.PendingDelivered | src/ratchet.c:419-490 | A genuine unread message opens to the sealed plaintext exactly if the keys to skip fit the bound; otherwise nothing changes |
| RatchetDelivery.OpenedOnlyPending | src/ratchet.c:419-490 | A genuine body opens only under its own header and only while unread |
| RatchetDelivery.FailureKeepsState | src/ratchet.c:430-489 | A packet that does not open leaves the session as it was, whatever it contains |
| RatchetDelivery.DeliveryIff | src/ratchet.c:419-490 | In any reachable state a packet opens if and only if it is an unread genuine message within the skip bound, and then to its plaintext |
| RatchetDelivery.DecryptReasons | src/ratchet.c:281-658 | For every session, packet and form, which code a refusal has: header of another version or type, header that opens under no key, index already passed, degenerate key, more to skip than the stash has room for, each before the body is looked at; then only the body decides |
| RatchetDelivery.SendsIff | src/ratchet.c:361-373 | In every reachable state a party can send exactly if it has a sending chain, the initiator always and the responder once it received, and the text has at most INT32_MAX bytes |
| RatchetDelivery.ReadAtMostOnce | src/ratchet.c:455-483 | In a reachable state no body was opened twice, and each was sealed by the other party |
| RatchetDelivery.SessionFacts | src/ratchet.c:256-273 | In every reachable state both stashes hold at most RATCHET_MAX_SKIP keys |
| RatchetDelivery.InitOk | src/ratchet.c:166-235 | Freshly initialised parties of all three forms satisfy the invariant, with no KEM key pair used twice |
| RatchetDelivery.StepKeepsNet | src/ratchet.c:364-658 | Every send and every delivery of any packet keeps it |
| RatchetDelivery.RunOk | src/ratchet.c:364-658 | So does every run over a network that drops, reorders, repeats and injects |
| RatchetDelivery.NeverTwice | src/ratchet.c:419-490 | A body opened at some point of a run never opens again, under any header, and trying changes nothing |
| RatchetDelivery.OpenedStaysOpened | src/ratchet.c:419-490 | What was read stays read over any continuation of a run |
| RatchetDelivery.SecretLifetime | src/ratchet.c:318-340 | Once set, a sending KEM secret serves fewer than RATCHET_KEM_EVERY further own steps, and was encapsulated to the peer's key of that time |
| RatchetDelivery.RunRotates | src/ratchet.c:318-340 | Over every run with fresh draws each rotation advertises a KEM key pair no chain had before |
| RatchetDelivery.KemKeyLifetime | src/ratchet.c:318-340 | So a KEM key pair serves its owner for fewer than RATCHET_KEM_EVERY further own steps |
| Gf256.Primitive | src/sss.c:33-36 | 3 has order 255 modulo 0x11b |
| Gf256.LogExists | src/sss.c:30-37 | Every nonzero byte is a power of 3, so the log table has no gap |
| Gf256.LogUnique | src/sss.c:32 | and has one logarithm below 255 |
| Gf256.MulExp | src/sss.c:42-45 | Table multiplication adds exponents |
| Gf256.MulZero | src/sss.c:43 | A product is zero exactly if a factor is |
| Gf256.MulComm | src/sss.c:42-45 | Multiplication commutes |
| Gf256.MulAssoc | src/sss.c:42-45 | Multiplication is associative |
| Gf256.MulDistributes | src/sss.c:42-45 | It distributes over xor |
| Gf256.DivMul | src/sss.c:47-51 | Division by a nonzero byte undoes multiplication and is the only value that does |
| Gf256.MulIsCarryless | src/sss.c:42-45 | Table multiplication is carry-less multiplication modulo x^8+x^4+x^3+x+1 (section 4.2 of FIPS 197) |
| GfTables.TripleWideIsTriple | src/sss.c:35-36 | The wide shift-and-reduce step is multiplication by 3 |
| GfTables.Tables.FillPowers | src/sss.c:29-37 | After the first loop exp and log invert each other |
| GfTables.Tables.Init | src/sss.c:27-40 | After both loops the tables are filled, however often it is called |
| GfTables.Tables.GfMul | src/sss.c:42-45 | The lookup never leaves the tables and is the field product |
| GfTables.Tables.GfDiv | src/sss.c:47-51 | The lookup never leaves the tables and is the field quotient |
| Shamir.QuotEval | src/sss.c:105-116 | Dividing a polynomial by (x - r): p(x) = (x - r) q(x) + p(r) |
| Shamir.RootBound | src/sss.c:105-116 | A polynomial with n coefficients and n distinct roots is zero |
| Shamir.Unique | src/sss.c:105-116 | Two polynomials with n coefficients that agree at n points are equal |
| Shamir.InterpolateMeets | src/sss.c:105-116 | There is one through any n points |
| Shamir.LagrangeRecovers | src/sss.c:248-267 | The Lagrange sum over any t shares equals the polynomial everywhere |
| Shamir.Reconstruct | src/sss.c:248-267 | At 0 it is the secret byte, for every choice of coefficients and t distinct indices |
| Shamir.Secrecy | src/sss.c:105-116 | For any t-1 distinct nonzero indices, share values and candidate secret, exactly one coefficient vector explains them |
| ShamirShares.Horner | src/sss.c:108-114 | The innermost split loop evaluates the polynomial |
| ShamirShares.FillShares | src/sss.c:105-116 | The split loops fill share i with the polynomials' values at i+1 |
| ShamirShares.Split | src/sss.c:79-145 | Produces the n shares exactly for secrets of 1 to 2^32-1 bytes and 2 <= t <= 16, t <= n <= 255; refuses everything else as input |
| ShamirShares.ShareRoundTrip | src/sss.c:118-196 | A written share file reads back exactly if its fields are within the reader's bounds |
| ShamirShares.ReadOnlyWritten | src/sss.c:158-196 | The reader accepts no bytes but the file of the share it returns |
| ShamirShares.BasisValue | src/sss.c:251-260 | The basis loop computes the Lagrange coefficient at 0 |
| ShamirShares.WeightedSum | src/sss.c:261-267 | The summing loop computes the Lagrange sum |
| ShamirShares.Join | src/sss.c:198-290 | The whole join gives the specified answer, with the specified error for each malformed input |
| ShamirShares.JoinRefuses | src/sss.c:158-245 | For any files: the first one that cannot be read, is not of the split of the first one or repeats an index decides, as input error or as mismatch |
| ShamirShares.JoinAnswers | src/sss.c:198-290 | For 2 to 16 files that fit together: too few are an input error; otherwise the answer is what any polynomials through the first t shares are at 0, if it has the digest, and a mismatch if not |
| ShamirShares.SplitThenJoin | src/sss.c:79-290 | Joining any selection of a split's share files gives the secret exactly if t to 16 are given, none twice, and it has at most 2^24 bytes; each other selection is refused with its own error |
| ShamirShares.SeventeenShares | src/sss.c:198-202 | All seventeen shares of a 2-of-17 split are refused, any sixteen give the secret |
| ShamirShares.JoinFailsClosed | src/sss.c:269-277 | Whatever else is supplied, what a join with a genuine share returns is the secret, or a hash collision with it |
| ShamirShares.FewSharesSayNothing | src/sss.c:105-116 | The data of t-1 shares is explained by exactly one set of coefficients for each candidate secret of that length |
| ShamirShares.FewFilesAgreeIff | src/sss.c:100-133 | t-1 whole share files fit another secret exactly if it has the same length and digest, and then with exactly one set of coefficients |
| ShamirShares.OneFileConfirms | src/sss.c:101-133 | Secrets with different digests never have a share file in common |
| Group.FrameRoundTrip | src/group.c:90-127 | A frame parses back to its parts |
| Group.ParsesOnlyWire | src/group.c:119-131 | Every input that parses is the frame of its parts, and of no others |
| Group.StashFinds | src/group.c:105-108 | In a tracked state the stash has the true key of exactly the missing indices |
| Group.StashRemoves | src/group.c:109-114 | Removing an entry is consuming its index |
| Group.StashSize | src/group.c:152-162 | Every index from the start on is either consumed or stashed |
| Group.SkipReaches | src/group.c:155-162 | Skipping moves to the tracked state further on |
| Group.LocateExact | src/group.c:147-170 | A key is found exactly for an unconsumed index from the start on and at most GROUP_MAX_SKIP beyond the consumed count, and it is the chain's key; all 32-bit indices included |
| Group.Decide | src/group.c:116-184 | The whole answer to any input, forged or not, in every reached state: malformed, signature not the sender's, replayed, too far ahead and unopened are refused in this order, each with its code and nothing changed; only the rest opens, and consumes one acceptable index |
| Group.EncryptAdvances | src/group.c:59-103 | Sending emits the genuine frame of the current index and moves to the next, wrapping after 2^32-1; exactly texts over INT32_MAX bytes are refused |
| Group.GenuineOpensIff | src/group.c:116-184 | A genuine frame opens to its text if and only if its index is acceptable; replay and excess skip are told apart and change nothing |
| Group.WrapsIff | src/group.c:147-178 | An acceptable genuine frame opens, and leaves the receiver past its index exactly if that is not 2^32-1 |
| Group.WrapStrandsStash | src/group.c:168 | After the last index every unconsumed index beyond GROUP_MAX_SKIP has its true key in the stash, and its genuine frame is refused |
| Group.LastTwoFrames | src/group.c:147-178 | The last two frames of a chain both open in order; in the other order the second is refused |
| Group.RunTracks | src/group.c:116-184 | After any run of inputs the state is that of the set of opened indices, each opened once, exactly if 2^32-1 is not among them |
| Group.RunIsSigned | src/group.c:127-136 | Over any run of inputs, made by whoever knows the chain key: if only the sender's signatures verify, every opened frame's index and ciphertext were signed by the sender |
| Group.RunReadsOnlySent | src/group.c:116-184 | and every text read is the one the sender sent under that index, up to the frame with index 2^32-1 |
| Group.OrderIndependent | src/group.c:116-184 | The state then depends only on that set, not on the order |
| Group.AnyOrder | src/group.c:116-184 | Acceptable genuine frames delivered in any order all open up to the one with index 2^32-1; on a chain that starts beyond the skip bound none opens after it |
| GroupSession.InstalledAtStart | src/group.c:42-57 | A receiver installed from a distribution message stands at the sender's current index |
| GroupSession.PackRoundTrip | src/group.c:208-256 | A packed receiver unpacks to itself exactly if its stash is within GROUP_MAX_SKIP |
| GroupSession.UnpackOnlyPacked | src/group.c:230-256 | Only packed receivers unpack |
| GroupSession.SenderSession.EncryptMessage | src/group.c:59-103 | The in-place sender gives the specified frame and state; on refusal the state is unchanged |
| GroupSession.ReceiverSession.SkippedFind | src/group.c:105-108 | The search loop finds the first entry of an index |
| GroupSession.ReceiverSession.SkippedRemove | src/group.c:109-114 | Closes the gap and changes nothing else |
| GroupSession.ReceiverSession.SkipTo | src/group.c:155-162 | The skipping loop stashes every passed key, within the array |
| GroupSession.ReceiverSession.DecryptMessage | src/group.c:116-184 | The working-copy code, signature check included, gives the specified answer and state for every input; Decide and RunIsSigned say which |
| GroupSession.ReceiverSession.Serialize | src/group.c:212-224 | The packing loop writes the specified bytes |
| GroupSession.ReceiverSession.Deserialize | src/group.c:236-253 | Accepts exactly the packed bytes and loads what they say; a wrong count leaves an empty stash and the keys of the blob, a short blob leaves everything |
| Framing.NoncesDiffer | src/crypto_utils.c:844-850 | Frames with different counter or final flag have different nonces |
| Framing.SealedLength | src/vault.c:115-117 | A sealed stream has exactly the computed ciphertext length |
| Framing.OpensToStream | src/crypto_utils.c:1822-1862 | Reading what was written gives the stream, also at exact multiples of the frame size |
| Framing.AcceptsOnlyWritten | src/crypto_utils.c:1822-1862 | What is accepted is the writer's output for what was returned |
| Framing.ReaderExact | src/crypto_utils.c:1822-1862 | Without forgery, acceptance is exactly the encoder's byte string, and what is released before a rejection is a prefix of the stream |
| VaultRanges.RangesOverlap | src/vault.c:815-820 | True exactly if two ranges meet |
| VaultRanges.Scan | src/vault.c:861-867 | Over sorted, possibly overlapping ranges the scan finds the least place free of all of them |
| VaultRanges.FindFree | src/vault.c:859-868 | With the sort: the least fit for any list of nonempty ranges, which is only permuted |
| VaultRanges.LongestFreeIs | src/vault.c:859-868 | A request fits somewhere exactly if it is no longer than the longest free run |
| VaultRanges.FirstFitExactIff | src/vault.c:859-868 | That answer is the least fit in the container exactly if the request is within the container's longest free run or beyond that of the container stretched to the last start |
| VaultRanges.AlwaysExactIff | src/vault.c:859-868 | It is for every request exactly if stretching makes no longer free run |
| VaultRanges.FirstFitExact | src/vault.c:859-868 | In particular whenever no range starts beyond the container |
| VaultRanges.OverreachExample | src/vault.c:863 | A range starting beyond the container makes the scan offer room outside it |
| VaultRanges.FirstFitIs | src/vault.c:859-868 | There is only one least fit |
| VaultSlot.OpensSealed | src/vault.c:202-269 | A sealed slot has the slot's length and opens to its blob at the same coordinates, passphrase and cost |
| VaultSlot.OnlySealedOpens | src/vault.c:242-269 | Only a sealed slot opens |
| VaultSlot.SealInto | src/vault.c:202-236 | The sealing loop overwrites exactly the slot |
| VaultSlot.Open | src/vault.c:242-269 | The opening loop agrees with the reader of the framed stream |
| VaultDir.EntryRoundTrip | src/vault.c:284-321 | An entry parses back exactly if its fields are within the trusted bounds |
| VaultDir.BlockRoundTrip | src/vault.c:273-324 | A block parses back exactly if all its entries do |
| VaultDir.BlockSizes | src/vault.c:873-963 | Every terminal block holds at most 46 entries, at least 2 after the first block; 181 entries are what 4 blocks hold |
| VaultDir.ReadableBlocks | src/vault.c:954-984 | A directory is readable exactly if every block of its chain is within the trusted bounds |
| VaultDir.FollowFrom | src/vault.c:741-766 | Following the chain from any block on collects exactly the entries from there |
| VaultDir.ChainRoundTrip | src/vault.c:721-984 | A directory sealed as a chain is read back with the same entries in the same order, exactly if it is readable |
| VaultDir.ChainClears | src/vault.c:954-984 | Whatever flags its data entries have, a sealed directory is followed through its own pointers only, and is read back with the pointer flag, and nothing else, cleared |
| VaultOpening.BlockReadsIff | src/vault.c:299-324 | Whatever the bytes: a block is read as given entries exactly if it is of version 1, counts them, at most 46, and spells each of them, within the trusted bounds, at its place |
| VaultOpening.AbsorbIff | src/vault.c:748-762 | A block is taken exactly if it has at most one pointer and there is room for its data entries, which are appended in order |
| VaultOpening.OpensIff | src/vault.c:721-773 | Whatever the container: a volume opens to a directory exactly if there is a chain of one to four readable blocks from the passphrase's anchor, each pointing to the next and to no other, with just these data entries, 181 at most |
| VaultOpening.OpenedFits | src/vault.c:299-324 | In an opened volume every slot can hold its length field, and no sum of an offset and a slot's or block's length exceeds 64 bits |
| Vault.ReduceInterval | src/vault.c:191-193 | The multiply-shift maps exactly one interval of draws to each offset |
| Vault.ReduceEven | src/vault.c:191-193 | and these intervals differ in length by at most one |
| Vault.AnchorInside | src/vault.c:161-195 | An anchor exists exactly if the container can hold one, and lies inside |
| Vault.BlobRoundTrip | src/vault.c:1003-1011 | A padded data blob gives back its content |
| Vault.PieceReads | src/vault.c:899-998 | Pieces that do not overlap all read back from the image, whatever the order of sealing |
| VaultRewrite.SlotsApart | src/vault.c:899-998 | A rewrite whose pieces can all be sealed is accepted exactly if no two slots or blocks of its volumes meet; all lie in the container |
| VaultRewrite.PlanReads | src/vault.c:882-998 | After an accepted rewrite every data slot opens to its blob and every readable block to its entries |
| VaultRewrite.RewriteOpens | src/vault.c:882-998 | and every plan's volume opens to its directory exactly if that is readable |
| VaultCommands.OpenedOk | src/vault.c:721-773 | Whatever bytes a volume is opened from, its directory is within all bounds |
| VaultCommands.VolumeKept | src/vault.c:1191-1204 | A volume rewritten as it was opened answers every lookup as before |
| VaultCommands.MutateKeeps | src/vault.c:1175-1207 | An accepted command keeps the size and every kept volume's names and contents |
| VaultCommands.CreateInRefines | src/vault.c:1048-1103 | Creating gives an empty volume |
| VaultCommands.CreateNewRefines | src/vault.c:1048-1103 | A new container is made exactly if it can hold an anchor, and holds an empty volume |
| VaultCommands.ChangePassRefines | src/vault.c:1346-1391 | Every name moves to the new passphrase with its content |
| VaultCommands.RemoveRefines | src/vault.c:1327-1344 | The name is gone, every other name keeps its content |
| VaultCommands.AddOpensIff | src/vault.c:1213-1311 | After an accepted add the volume opens exactly if the KDF cost is in the range the parser trusts |
| VaultCommands.AddRefines | src/vault.c:1213-1311 | The name is bound to the content, replacing or new; every other name keeps its content; names stay distinct |
| VaultRuns.KeptHolds | src/vault.c:1048-1391 | Any accepted command leaves a kept volume's map as it was |
| VaultRuns.ChangedHolds | src/vault.c:1048-1391 | and updates the changed volume's map |
| VaultRuns.StepRefines | src/vault.c:1048-1391 | One command takes container and model to matching ones; a refused one changes neither |
| VaultRuns.RunRefines | src/vault.c:1048-1391 | So does any run of commands |
| VaultTidy.RewriteAcceptedIff | src/vault.c:899-998 | A rewrite with everything at hand is accepted exactly if all slots and blocks lie in the container and none meets another |
| VaultRefusals.RewriteExact | src/vault.c:882-1000 | For all plans: accepted exactly if in addition every blob, name and needed block is at hand |
| VaultRefusals.RewriteRefusedInput | src/vault.c:882-1000 | With all contents and names at hand every refusal is an input error: too small a container, too few blocks, a place outside, or two that meet |
| VaultRefusals.DataRefused | src/vault.c:906-940 | The first data slot that cannot be sealed decides the code: an integrity error if its old blob does not open, an input error if it reaches outside |
| VaultRefusals.UnopenedRefused | src/vault.c:1048-1391 | Under a passphrase that opens nothing, or with a kept volume that does not open, every command is refused, with an integrity error unless the request itself is at fault |
| VaultRefusals.CreateNewExact | src/vault.c:1048-1103 | A container too small for an anchor is refused as input, every other one is made |
| VaultRefusals.TidyRefusedInput | src/vault.c:1048-1391 | In a tidy container every refusal of a command is an input error |
| VaultTidy.SealedSound | src/vault.c:899-998 | Every volume of an accepted rewrite opens, has exactly the blocks it needs, lies apart in the container, and all its slots open |
| VaultTidy.RewriteTidy | src/vault.c:899-998 | and the volumes lie apart from each other |
| VaultTidy.SharedPassRefused | src/vault.c:899-998 | A rewrite with two volumes of one passphrase is always refused: their anchors meet |
| VaultTidy.RepeatedPassRefused | src/vault.c:1175-1207 | So a command that keeps a volume twice, or keeps the one it writes, is always refused |
| VaultTidy.MutateAcceptedIff | src/vault.c:1175-1207 | With tidy volumes to keep, a change is accepted exactly if none is kept twice and the changed volume lies in the container, apart in itself and from them |
| VaultAccept.RemoveAcceptedIff | src/vault.c:1327-1344 | Removing is accepted exactly if the name is there, no volume is kept twice and the volume itself is not among the kept |
| VaultAccept.ChangePassAcceptedIff | src/vault.c:1346-1391 | Changing the passphrase is accepted exactly if no volume is kept twice, the new anchor's place is clear of the rest of the volume and of the kept ones, and the volume is kept under its old passphrase only if empty |
| VaultAccept.CreateInAcceptedIff | src/vault.c:1048-1103 | Creating is accepted exactly if the container holds an anchor, no volume is kept twice and the anchor's place is clear of the kept ones |
| VaultAccept.AddAcceptedIff | src/vault.c:1213-1311 | Adding is accepted exactly if the request is admissible (bounds, name free or replaceable, directory not full), no volume is kept twice and the volume itself is not among the kept, and there is room for the slot and the missing directory blocks |
| VaultAccept.AutomaticPlacement | src/vault.c:1248-1273 | Automatic placement gives the least clear place in the container, and one exactly if the slot is no longer than the longest free run |
| VaultAccept.AddedEntry | src/vault.c:1223-1304 | An accepted add puts behind the entries found, without the replaced one, an entry of the name, the command's cost, the capacity asked for or the least that holds the content, and the place asked for or, in a tidy container, the least clear one |
| VaultAccept.PlaceBlocksApart | src/vault.c:1292-1302 | Missing directory blocks are placed in the container, apart from everything and each other |
| VaultAccept.OverreachRefused | src/vault.c:908-909 | A place that reaches outside the container always ends in a refusal |
| VaultAccept.StepTidy | src/vault.c:1048-1391 | Each command, accepted or refused, takes a tidy container to a tidy one |
| VaultAccept.RunTidy | src/vault.c:1048-1391 | So does every run |
| VaultAccept.RunFromNew | src/vault.c:1048-1391 | From a new container on, after every run the volumes hold what the model says, lie apart, and all their ranges end in the container |
| VaultAccept.AddUnreadable | src/vault.c:1280-1311 | With a KDF cost outside 2^14..2^22, adding to a new volume is accepted and makes the whole volume unreadable |
| VaultImage.SerializeBlock | src/vault.c:273-297 | The loop writes the block over random bytes, or refuses |
| VaultImage.ParseBytes | src/vault.c:299-324 | The loop parses, refusing at the first bad field |
| VaultImage.Directory.RemoveName | src/vault.c:349-356 | Entries behind the removed one move down, order kept |
| VaultImage.Directory.AddEntry | src/vault.c:338-347 | Appends, unless full, too long or a duplicate |
| VaultImage.AbsorbInto | src/vault.c:748-762 | One block's entries, at most one pointer, at most 181 in all |
| VaultImage.OpenFor | src/vault.c:721-773 | The chain-following loop opens exactly what the specification opens |
| VaultSeal.SealData | src/vault.c:906-940 | The data loop seals the plan's pieces and claims their ranges, or stops with the specified error |
| VaultSeal.SealChain | src/vault.c:943-990 | The block loop seals the chain and claims its ranges |
| VaultSeal.Rewrite | src/vault.c:882-1000 | The whole rewrite on an image buffer gives the specified container or error |
| VaultSession.MutateVolume | src/vault.c:1175-1207 | Loading the kept volumes and rewriting gives the specified result |
| VaultSession.PlaceOverflow | src/vault.c:1292-1302 | The loop places missing directory blocks first-fit, each clear of all before |
| VaultSession.CollectAll | src/vault.c:1248-1265 | Collects the ranges of all visible volumes within the array |
| VaultSession.AddSlot | src/vault.c:1213-1311 | The whole add, checks and placement in order, gives the specified result |
| VaultSession.RemoveSlot | src/vault.c:1327-1344 | The whole remove gives the specified result |
| VaultSession.Rekey | src/vault.c:1346-1391 | The whole passphrase change gives the specified result |
| Container.MetaRoundTrip | src/crypto_utils.c:1095-1132 | The metadata block parses to the lengths and flags written, and keeps the name flag and the information block as they are |
| Container.StreamRoundTrip | src/crypto_utils.c:1191-1333 | A written stream, signed or not, padded or not, known length or not, is taken apart into its contents with a good verdict |
| Container.DecryptsToContents | src/crypto_utils.c:1191-1943 | Decrypting what was encrypted gives the contents and succeeds, for every length |
| Container.BrokenStays | src/crypto_utils.c:1502-1597 | Once the sink fails, later bytes release nothing and never make it good |
| Container.ReleasedOfPrefix | src/crypto_utils.c:1502-1625 | From any prefix of a written stream only a prefix of the contents is released, never trailer or padding |
| Container.OnlyContentsReleased | src/crypto_utils.c:1822-1943 | Without forgery, whatever bytes are read, only a prefix of the contents is released, and acceptance is exactly the encoder's output |
| ContainerSink.Sink.WriteKnown | src/crypto_utils.c:1568-1597 | Known length: contents, trailer and padding are routed as by one direct split; excess is refused |
| ContainerSink.Sink.WriteRolling | src/crypto_utils.c:1599-1624 | Unknown length, signed: all but the last trailer's worth is released |
| ContainerSink.Sink.ParseMeta | src/crypto_utils.c:1515-1553 | A complete metadata block is accepted exactly if consistent |
| ContainerSink.Sink.Write | src/crypto_utils.c:1502-1625 | After any write the sink stands as after one write of everything fed so far |
| ContainerSink.Sink.Finish | src/crypto_utils.c:1629-1695 | The verdict is that of the direct split, signature and pinned signer included; AcceptedIff says which streams are good |
| ContainerSink.Consume | src/crypto_utils.c:1502-1695 | For every way of cutting a stream into writes the contents and verdict are those of the whole stream |
| ContainerWriter.FullThenRest | src/crypto_utils.c:1219-1322 | Sealing a stream is sealing its full frames and then the rest |
| ContainerWriter.Filler.FillContents | src/crypto_utils.c:1229-1261 | Fills with contents until full or finished, for every pattern of short reads; fails only if the file is shorter than declared |
| ContainerWriter.Filler.FillFrame | src/crypto_utils.c:1219-1304 | One frame takes the next bytes of the stream, and is short only at its end |
| ContainerWriter.EncryptStream | src/crypto_utils.c:1210-1333 | The four-stage loop writes exactly the frames of metadata, contents, trailer and padding |
| ContainerReader.DecryptStream | src/crypto_utils.c:1822-1943 | The reader loop releases what the verified frames release, and accepts exactly the frames of a genuine stream: declared, and signed for this header, metadata, contents and pin if it says it is signed |
| ContainerReader.AcceptedBytes | src/crypto_utils.c:1822-1943 | Accepted bytes are exactly the frames of a genuine stream whose contents are what was released |
| ContainerSigned.JudgeExact | src/crypto_utils.c:1655-1687 | A trailer that carries a key and a signature is good exactly if that verifies under the key over header, metadata and contents and the key is the pinned one; otherwise it is forged |
| ContainerSigned.JudgeInvalidIff | src/crypto_utils.c:1655-1661 | A trailer is invalid exactly if it carries no signature of 1 to 4627 bytes |
| ContainerSigned.AcceptedIff | src/crypto_utils.c:1502-1695 | A stream is accepted with given contents if and only if it is a declared layout of just those, and is signed for header and pin if it says it is signed |
| ContainerSigned.OnlyAssembled | src/crypto_utils.c:1502-1695 | Every verdict but invalid is about a stream of consistent metadata, contents, trailer and zero padding of the declared lengths |
| ContainerSigned.DecryptsIff | src/crypto_utils.c:1822-1943 | Decryption succeeds with given contents exactly on the frames of such a stream |
| ContainerSigned.SameParts | src/crypto_utils.c:1655-1671 | The signed bytes determine header, metadata and contents |
| ContainerSigned.NamedSigner | src/crypto_utils.c:1655-1687 | If a key signs only what its owner signed, a stream that names it and has other contents, other metadata, another header or another pin ends as forged, and such a stream is never invalid |
| ContainerSigned.PinnedIsSigned | src/crypto_utils.c:1649-1687 | A stream accepted under a pin was signed by the pinned key's owner for this header exactly if its metadata says it is signed |
| ContainerSigned.UnsignedPassesPin | src/crypto_utils.c:1649 | An unsigned stream of any contents is accepted under any pin |
| Padme.PaddedBounds | src/crypto_utils.c:894-902 | The padded size is at least the size and at most an eighth more |
| Padme.PaddedAtLeastIff | src/crypto_utils.c:894-902 | It is at least the size exactly if the size is at most 2^64 - 2^57; above it is 0 |
| Padme.PaddedMonotonic | src/crypto_utils.c:894-902 | It is monotone |
| Padme.PaddedIdempotent | src/crypto_utils.c:894-902 | and idempotent |
| Padme.PaddedInBucket | src/crypto_utils.c:894-902 | Within a power-of-two bucket it is a multiple of one power of two between the bucket's ends |
| Padme.FewSizes | src/crypto_utils.c:894-902 | A bucket 2^E..2^(E+1) has at most 2^S + 1 padded sizes |
| BitGroups.ConvertBits | src/age_plugin.c:85-109 | The accumulator loop's groups spell the input's bits, padded with zeros or cut of at most one short zero remainder; anything else is refused |
| BitGroups.Convert | src/age_plugin.c:85-109 | So the loop computes the regrouping function |
| BitGroups.RegroupRoundTrip | src/age_plugin.c:85-109 | Regrouping bytes into smaller groups and back gives the bytes |
| BitGroups.RegroupCanonical | src/age_plugin.c:85-109 | Groups that are accepted back are the groups of their bytes |
| BitGroups.AllBitsInjective | src/age_plugin.c:85-109 | Groups of one width are determined by their bits |
| Bech32.StepLinear | src/age_plugin.c:60-66 | A checksum step is linear over GF(2) |
| Bech32.StepKernel | src/age_plugin.c:60-66 | and a zero step loses nothing |
| Bech32.ChecksumIff | src/age_plugin.c:57-132 | Six symbols make the checksum 1 exactly if they are the appended ones |
| Bech32.SingleErrorDetected | src/age_plugin.c:57-68 | Changing any one symbol of a valid string, of any length, makes it invalid |
| Bech32Codec.ComputePolymod | src/age_plugin.c:57-68 | The nested loops compute the checksum |
| Bech32Text.ChecksumDigitsIff | src/age_plugin.c:71-132 | The encoder's six digits, and only they, make prefix and data check to 1 |
| Bech32Text.TextParts | src/age_plugin.c:126-133 | The last '1' of an encoded text is the separator, also if the prefix contains '1' |
| Bech32Text.DecodeEncode | src/age_plugin.c:112-199 | Any text that is not of mixed case and lower-cases to an encoding decodes to prefix and payload |
| Bech32Text.RoundTripIff | src/age_plugin.c:112-199 | The encoding itself decodes to what was encoded exactly if the prefix is printable, not empty and not upper case, and prefix and payload fit the buffers |
| Bech32Text.CapacityIff | src/age_plugin.c:112-141 | The encoder refuses exactly the texts that do not fit its buffer |
| Bech32Text.DecodeIff | src/age_plugin.c:145-199 | For every text and all capacities, the decoder gives a prefix and a payload if and only if these fit, the prefix is printable, not empty and not upper case, the text is not of mixed case, and its lower-case form is their encoding |
| Bech32Text.PrefixSeparated | src/age_plugin.c:71-83 | The symbols that are checked determine prefix and data: the zero between the prefix's halves separates them |
| Bech32Text.Canonical | src/age_plugin.c:145-199 | Re-encoding an accepted text gives its lower-case form |
| Bech32Codec.EncodeText | src/age_plugin.c:112-141 | The encoder gives the specified text or refusal |
| Bech32Codec.DecodeText | src/age_plugin.c:145-199 | The decoder gives the specified parts or refusal |
| Bech32Codec.CheckCase | src/age_plugin.c:149-156 | Accepts exactly printable texts that are not of mixed case |
| Base64.RoundTrip | src/age_plugin.c:204-257 | Decoding an encoding gives the bytes |
| Base64.Canonical | src/age_plugin.c:239-257 | Only the encoding of its bytes decodes: stray bits and bad lengths are refused |
| Base64.EncodedLength | src/age_plugin.c:207-240 | An encoded length is never 1 modulo 4 |
| Base64.EncodeText | src/age_plugin.c:207-231 | The groups-of-three loop and its tails write the bits' characters |
| Base64.DecodeText | src/age_plugin.c:239-257 | The accumulator loop decodes or refuses as specified |
| Stanza.LineIs | src/age_plugin.c:276-279 | A line that fits the buffer with its newline is read as one |
| Stanza.LineFacts | src/age_plugin.c:276-279 | No line that is read holds a NUL or a newline |
| Stanza.ReadWrapped | src/age_plugin.c:301-316 | The body loop consumes exactly a wrapped body's lines if and only if its full lines have no NUL and end in no carriage return, also when the body does not fit |
| Stanza.RoundTripIff | src/age_plugin.c:275-344 | A written stanza reads back with verb, arguments and body, leaving the stream behind it, exactly if verb and arguments have no spaces, the line no NUL, newline or final carriage return, and all sizes are within the reader's buffers |
| Stanza.ForeignBodyIff | src/age_plugin.c:270-326 | A foreign stanza with any text for a body is skipped exactly, verb and arguments known, if and only if its line is such a one and the full lines of its body are seen whole; only the flag tells whether the text fits and is base64 |
| Stanza.NulEndsBody | src/age_plugin.c:307-315 | A NUL at the start of a full line ends the body, and the next line fails as a command |
| Stanza.LongLineLosesBody | src/age_plugin.c:276-279 | A command line one character short of the buffer is read with an empty body, and the sent body stays in the stream |
| Stanza.LongLineExists | src/age_plugin.c:276-279 | Such a line is exhibited, of one verb and one argument |
| Stanza.Write | src/age_plugin.c:330-344 | The wrapping loop writes the specified characters |
| Stanza.ReadStanza | src/age_plugin.c:275-326 | The tokenizing and body loops read as specified |

## Left out

Not modelled:

- OpenSSL and liboqs: AES-GCM, HKDF, scrypt, Argon2id, X25519, ML-KEM, ML-DSA and SHA-256 are functions or terms with the laws named below.
- Memory and random-generator failures, zeroization, timing, deniability and randomness quality; random bytes are parameters.
- Files, stdio, temporary files and rename: a container is a byte sequence, the final replace is atomic, the stanza stream is a string of characters.
- src/treekem.c:299 onwards, the byte format of commits, and src/ratchet.c:720 onwards, the byte format of sessions at rest: straight-line field copies that would only add easy round trips.
- crypto_seal_at_rest around packed sessions; src/pqxdh.c, whose shared secret is the ratchet's input; src/age.c, whose codecs are looser copies of the ones here.
- src/main.c, src/keychain.c, src/libqsafe.c, python/, fingerprints, armor and inspection.
- Containers of versions 5 and 6, and the name, mode and time in the metadata block (carried as opaque bytes).
- Vault version 1, the secrets layer on top of a volume and keyfile hashing; a KDF cost is its base-2 logarithm, its other parameters and the keyfile are folded into the key function.
- The cast of a received text's length to int, src/group.c:173 and the like in src/ratchet.c: received texts are of at most INT32_MAX bytes, as sent ones are (src/group.c:62, src/ratchet.c:371).

Assumptions the theorems name:

- `Framing.Exact`: a ciphertext opens to p exactly if it is the sealing of p under the same key, nonce and associated data. `Framing.NoForgery`, about the attacker's bytes alone, is the ideal-AEAD hypothesis of the two exactness theorems.
- The ratchet's and the tree's cryptography is a free term algebra: Diffie-Hellman commutes, decapsulation undoes encapsulation, a box opens only under its own key, nonce and associated data. The network delivers any header with any body, except that a body sealed under a message key is one a party sent (`FromWire`).
- Newly drawn Diffie-Hellman and tree secrets are different from all before; a chain has fewer than 2^32 messages.
- TreeKEM members apply the same operations in the same order and commits are honest: src/treekem.c:196-201 does not check that the nodes of the steps form a path. `Process` itself is specified for every commit.
- The vault's run theorems hold for containers of up to VAULT_MAX_OFFSET bytes and commands that are only given passphrases of volumes in the model; volumes that are not kept are lost, as the code intends.

Deliberately narrower contracts:

- AddRefines: holds for KDF costs 2^14 to 2^22; AddOpensIff gives the exact condition.
- MutateKeeps: says nothing of volumes that were not named as kept; the code may overwrite them.
- PlanReads: speaks of the blocks the directory needs; further overflow offsets it still carries are not sealed.
- OrderIndependent: for runs that do not open index 2^32-1, after which the state is no longer that of a set of indices (RunTracks).
- Write: its text has no size limit; the source's buffer holds 12288 characters, enough for every body a reader accepts.
- DeliveryIff: for headers as long as their type byte announces, which src/ratchet.c leaves to its callers.
- Bech32Codec.EncodeText: for prefixes of seven-bit characters; on others src/age_plugin.c:75 shifts a char whose sign the C language leaves open, and all callers pass constants.
