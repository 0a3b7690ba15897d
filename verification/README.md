# simple-secrets: a verified model

A Dafny model of the security-relevant core of simple-secrets: its threshold sharing, its
persistent vault and session agent, its terminal front end, and its codecs and samplers.
Loops and objects of the implementation are methods and classes here; each is proved against
a function or a state machine, and the promises are theorems about those.

`dafny verify dfyconfig.toml` checks everything.

## What is modelled

**Sharing** (`Gf256`, `Fields`, `Polynomial`, `Sharing`, `SharingTheorems`, `Shamir`, `Multisig`,
`MultisigTheorems`, `ShareTokens`). The branch-free arithmetic of GF(2^8) is shown to be a field;
everything above it is proved for any field of characteristic two. The random generator is an
arbitrary function that supplies coefficients. Custodian encryption is an arbitrary pair of
functions of which decryption inverts encryption, and SHA-512 an arbitrary function with 64-byte
values. Since no such function is injective on all inputs, soundness assumes only that none of the
shares supplied collides with a different dealt share (`NoCollision`).

**The vault** (`VaultHeader`, `VaultFile`, `LocalStore`, `Session`). The file system is an object
whose ghost history records every image of the disk at every step boundary: a write may stop after
any prefix, a rename is one step. The store keeps a ghost log of the entry map of the last completed
rename next to each image; its invariant says that every image decodes to that map, and every
operation says what it adds to the log. A crash, or the watchdog ending the process in the middle of
a save, leaves one of these images behind. The map's iteration order is nondeterministic.

**The agent** (`Agent`, `ActivityClock`). Requests over the real store, proved to run like a plain
map from names to values; and the activity clock shared with the watchdog, as interleaved single reads
and writes.

**The front end** (`Names`, `Interaction`, `InteractionTheorems`, `InteractionFlows`, `InteractionTasks`,
`Tui`). An object whose methods take one key at a time, proved equal to a state machine over ten modes;
invariants of that machine over every sequence of keys, ticks and failures; and what each task does, from
its first key to its last, for every text typed. The vault beneath it is a map whose operations may fail as
those of the store do; two methods show that the store's operations have exactly these outcomes.

**Codecs and samplers** (`Bits`, `Base32`, `Text`, `Otpauth`, `Hotp`, `Passphrase`, `Password`, `Utf8`,
`Editor`). Accumulator loops proved against bit strings, and their round trips.

## Findings

- `split_into_tokens` admits threshold 1 (src/cli/sharing.rs:80) and then always fails, because
  `shamir::split` requires at least 2 (src/sharing/shamir.rs:59): `ThresholdOneIsRefused`, with
  `SplitsWhen` as the exact condition.
- A vault that grows beyond 32 MiB is saved (src/storage/local_store.rs:264) but can no longer be
  opened (src/storage/local_store.rs:192): `SaveCanExceedLimit`, and `ReopenIsIdentity` as the exact
  condition.
- A put whose save fails stays in memory (src/storage/local_store.rs:278-285): later gets see it, and
  the next successful save makes it durable. `GetCanMissTheAcknowledged` and
  `GetReturnsLastAcknowledgedIff` for the agent. In the front end the list of names then lacks it
  (src/ui/mod.rs:409-412): `FailedSaveDesyncs` and `SyncKeptIff`.
- The watchdog computes the idle time and then acts on it (src/cli/agent.rs:278), so it may end an
  agent touched in between: `ExitCanBeOvertaken` and `ExitIsIdleIff`. It never ends one because of an
  underflow.
- A value longer than 64 KiB is cut when it is loaded into the editor (src/ui/editor.rs:33), possibly
  inside a character, and saving it untouched stores the cut value: `CutCanSplitACharacter`,
  `CutSeedIsText` and `UntouchedEdit`.
- The front end resets its idle timer on a key before it checks it (src/ui/mod.rs:502,
  src/ui/mod.rs:1045), so a key pressed after the timeout and before the next check, which comes at
  least every 500 ms (src/ui/mod.rs:1037), still acts on the open vault: `LateKeyActs` and `LateKeyIff`.
- The agent touches its clock before it reads a token (src/cli/agent.rs:102), so not only the owner's
  requests keep the session alive: `TouchesIgnoreTokens`.

## Model

| member | source | states |
|---|---|---|
| `Gf256.GfMul` | src/sharing/shamir.rs:21-35 | the eight masked rounds compute the shift-and-add product modulo the AES polynomial, for all pairs of bytes |
| `Gf256.MaskedRoundsMultiply` | src/sharing/shamir.rs:21-35 | mask arithmetic without branches equals the sum, over the set bits i of b, of a times x^i |
| `Gf256.MulComm` | src/sharing/shamir.rs:21-35 | multiplication commutes although the loop treats its operands differently |
| `Gf256.MulAssoc` | src/sharing/shamir.rs:21-35 | multiplication is associative |
| `Gf256.MulDistribute` | src/sharing/shamir.rs:10-35 | multiplication distributes over XOR |
| `Gf256.GfInv` | src/sharing/shamir.rs:41-48 | the loop follows the exponent chain 1, 3, 7, ..., 127, 254 |
| `GfField.InverseIsExact` | src/sharing/shamir.rs:37-48 | that power is the one inverse of a nonzero byte, and zero for zero |
| `GfField.GFIsField` | src/sharing/shamir.rs:10-48 | XOR, `gf_mul` and `gf_inv` form a field of characteristic two: every nonzero byte times its `gf_inv` is 1 |
| `Polynomial.RootsForceZero` | src/sharing/shamir.rs:50-56 | a polynomial with as many distinct roots as coefficients is zero, over any field |
| `Polynomial.InterpolationUnique` | src/sharing/shamir.rs:91-144 | at most one polynomial of degree < k passes through k points |
| `Polynomial.InterpolationExists` | src/sharing/shamir.rs:91-144 | at least one does: the Lagrange polynomial |
| `Polynomial.LagrangeEvaluates` | src/sharing/shamir.rs:119-141 | the Lagrange sum at x is the value at x of that polynomial, without computing it |
| `Shamir.EvalPoly` | src/sharing/shamir.rs:50-56 | Horner's loop computes the value of the polynomial |
| `Shamir.Split` | src/sharing/shamir.rs:58-89 | the in-place loops deal exactly the values of one fresh polynomial per byte, and the parameter errors are those of the code |
| `Shamir.DealByte` | src/sharing/shamir.rs:76-86 | one round writes its byte into every share and leaves the bytes of the earlier rounds alone |
| `Shamir.Reconstruct` | src/sharing/shamir.rs:91-144 | the nested loops compute the Lagrange sum at 0, with the errors of the code in its order |
| `Shamir.LagrangeWeight` | src/sharing/shamir.rs:125-137 | the innermost loop computes the product of x_j / (x_i - x_j) |
| `Shamir.Scheme256IsScheme` | src/sharing/shamir.rs:69-74 | the share indices 1..=255 are distinct and nonzero in the field |
| `SharingTheorems.AcceptsWellFormed` | src/sharing/shamir.rs:92-115 | reconstruction answers Ok exactly for two or more shares of equal length with distinct nonzero indices |
| `SharingTheorems.ReconstructsTheInterpolant` | src/sharing/shamir.rs:91-144 | for arbitrary well-formed shares every denominator is nonzero and each output byte is the value at 0 of the one polynomial of degree < k through them |
| `SharingTheorems.OrderIndependent` | src/sharing/shamir.rs:91-144 | permuting the shares changes neither success nor result |
| `SharingTheorems.Correctness` | src/sharing/shamir.rs:58-144 | any selection of m or more of the dealt shares, in any order, reconstructs exactly the secret, for all secrets, parameters and coefficients |
| `SharingTheorems.OneTailPerSecret` | src/sharing/shamir.rs:50-89 | for m-1 points, any view of them and any candidate secret byte, exactly one coefficient tail produces that view |
| `SharingTheorems.PerfectSecrecy` | src/sharing/shamir.rs:58-89 | for two secrets of equal length one mask on the drawn coefficients turns every sub-threshold view of the one into the same view of the other |
| `SharingTheorems.MaskedTwice` | src/sharing/shamir.rs:76-86 | masking is its own inverse, so the correspondence of draws is a bijection |
| `Multisig.SplitSecret` | src/sharing/multisig.rs:74-117 | the method tags, deals, commits and encrypts in order, failing at the first blob that cannot be made |
| `Multisig.ReconstructSecret` | src/sharing/multisig.rs:119-183 | the method opens, checks commitments, interpolates and checks the tag, with the first error of the code |
| `Multisig.OpenCreated` | src/sharing/multisig.rs:58-72 | opening a created blob under its key gives back the share |
| `MultisigTheorems.TagAccepts` | src/sharing/multisig.rs:166-183 | the tag check answers Ok(secret) exactly for the payload secret ++ tag(secret) |
| `MultisigTheorems.OkMeans` | src/sharing/multisig.rs:119-183 | Ok(secret) exactly when all blobs open, all shares match their commitment slot, the shares are well-formed and interpolate to secret ++ tag(secret) |
| `MultisigTheorems.CheckedAreDealt` | src/sharing/multisig.rs:139-157 | accepted shares whose commitments do not collide are a duplicate-free selection of the dealt ones |
| `MultisigTheorems.Soundness` | src/sharing/multisig.rs:119-183 | with honest commitments, whatever blobs and keys are supplied, Ok from at least m blobs is the dealt secret, unless a supplied share and a different dealt one have equal hashes of index and data |
| `MultisigTheorems.Completeness` | src/sharing/multisig.rs:74-183 | any m or more honest blobs under their keys, in any order, give back the secret |
| `MultisigTheorems.SplitSucceeds` | src/sharing/multisig.rs:74-117 | splitting succeeds exactly for 2 <= m <= n <= 255 with n keys when every encryption succeeds; the empty secret is allowed |
| `MultisigTheorems.SplitContents` | src/sharing/multisig.rs:58-117 | share i is sealed under key i with nonce i as its index and its data, and its commitment is the hash of the same bytes |
| `MultisigTheorems.CommitmentDecides` | src/sharing/multisig.rs:45-56 | under honest commitments a share is refused exactly when it has no slot or the hash of its index and data differs from that of the dealt share there |
| `MultisigTheorems.AlteredShareRefused` | src/sharing/multisig.rs:139-157 | reconstruction from opened blobs answers the commitment error of the first share whose hash differs |
| `MultisigTheorems.AlteredSecretRefused` | src/sharing/multisig.rs:30-43 | a payload of another secret under the dealt secret's tag passes exactly when the first halves of two hashes, of domain, 8-byte little-endian length and secret, agree |
| `ShareTokens.ReconstructFromTokens` | src/cli/sharing.rs:112-144 | the loop with its `seen` set reports the first mixed or repeated share, then the count, then the scheme |
| `ShareTokens.DecodeEncoded` | src/cli/sharing.rs:50-65 | decoding an encoded token, trimmed and stripped of its prefix, gives back the share file |
| `ShareTokens.SurroundingsIgnored` | src/cli/sharing.rs:55-65 | white space around a token changes nothing |
| `ShareTokens.TokenContents` | src/cli/sharing.rs:86-110 | token i carries the parameters, its number, its own key, all commitments, and its own share sealed under that key |
| `ShareTokens.SplitsWhen` | src/cli/sharing.rs:68-110 | tokens are made exactly for thresholds 2..=shares with shares <= 255 when keys and blobs can be made |
| `ShareTokens.ThresholdOneIsRefused` | src/cli/sharing.rs:80-84 | threshold 1 passes the range check here and is always refused by the sharing below |
| `ShareTokens.EndToEnd` | src/cli/sharing.rs:68-144 | for every choice of honest tokens, in any order and with any repetition: none, a repeated one and too few are each their error, every other choice is the secret |
| `ShareTokens.MixedSplitsRefused` | src/cli/sharing.rs:121-125 | tokens with differing commitments never reconstruct, whoever made them |
| `ShareTokens.TokensSound` | src/cli/sharing.rs:112-144 | tokens of any origin, at least m, the first of which carries the commitments of an honest split, give its secret or fail |
| `VaultHeader.Parse` | src/storage/local_store.rs:67-102 | the parser refuses short data, a wrong magic or version and parameters out of range, and else reads the little-endian fields |
| `VaultHeader.ParsedIff` | src/storage/local_store.rs:54-129 | parse answers (h, rest) exactly for the bytes of h followed by rest, with parameters in range: to_bytes and parse invert each other both ways |
| `VaultHeader.HeaderLayout` | src/storage/local_store.rs:54-65 | magic, version, salt, time, memory, threads and iterations stand at their offsets of the 57 bytes, lowest byte first |
| `VaultHeader.ParamsAcceptedIff` | src/storage/local_store.rs:105-130 | which parameter values are accepted, as numeric bounds |
| `VaultFile.AnyOrderRebuilds` | src/storage/local_store.rs:218-221 | inserting the listed entries rebuilds the map, whatever order the map was listed in |
| `VaultFile.LastEntryCounts` | src/storage/local_store.rs:218-221 | of several entries with one name the last one counts |
| `VaultFile.SavedHolds` | src/storage/local_store.rs:231-257 | what a save writes decodes to the saved entries, for every listing order and nonce |
| `VaultFile.SavedLayout` | src/storage/local_store.rs:231-257 | a saved file is the header and then the sealed listing, which opens only with those 57 bytes as associated data |
| `VaultFile.ReopenIsIdentity` | src/storage/local_store.rs:186-271 | for every listing order and every nonce, the bytes of a save give back header, key and entry map exactly if and only if they are within `MAX_VAULT_LEN`, and are refused for their length otherwise |
| `VaultFile.SaveCanExceedLimit` | src/storage/local_store.rs:191-197 | a lawful library and a map whose save is written and refused on opening |
| `VaultFile.OpenedHolds` | src/storage/local_store.rs:186-229 | whatever opens decodes under the 57 bytes it starts with, and its keys are its entries' names |
| `FileSystem.Disk.Write` | src/storage/local_store.rs:264 | a write may stop anywhere: every image it passes through changes only the written path |
| `FileSystem.Disk.Rename` | src/storage/local_store.rs:265-268 | a rename is one step or none |
| `LocalStore.Store.ReplaceFile` | src/storage/local_store.rs:261-271 | at every step boundary before the rename completes the vault path is untouched; afterwards it holds the new bytes |
| `LocalStore.Store.Save` | src/storage/local_store.rs:231-271 | a failed save leaves the vault file as it was, a successful one leaves exactly the entries in memory |
| `LocalStore.Store.SaveLogged` | src/storage/local_store.rs:231-271 | keeps the invariant that every disk image decodes to its entry in the log, and says what the save adds to it: the map committed before for every image but the last of a successful save, which shows the map in memory |
| `LocalStore.Store.PutSecret` | src/storage/local_store.rs:308-314 | the value replaces the name's entry in memory unless the name is invalid or sealing fails; the images of its save show the map committed before, and the last one the map in memory exactly when the answer is Ok |
| `LocalStore.Store.GetSecret` | src/storage/local_store.rs:319-329 | returns the value of the name, absence, or a decryption error |
| `LocalStore.Store.Names` | src/storage/local_store.rs:332-334 | each name in the vault once |
| `LocalStore.Store.DeleteSecret` | src/storage/local_store.rs:338-345 | removes the entry from memory, saves only if it was there, and tells the two apart; its images are constrained in the same way |
| `SecretName.NameAcceptedIff` | src/core/name.rs:8-19 | a name is accepted exactly with 1 to 256 bytes of UTF-8 and no control character |
| `Session.Create` | src/storage/local_store.rs:143-181 | never touches an existing path and refuses salt and parameters as the code does; on Ok the vault is empty, valid and has the given library, salt, parameters and iterations, its file starts with the header's bytes, and opening it with the same passphrase and hardware key gives that header and no entries, or the length error |
| `Session.Open` | src/storage/local_store.rs:186-229 | only reads the disk, and opens exactly what decodes |
| `Session.CrashRecovers` | src/storage/local_store.rs:186-271 | opening any disk image since the vault was opened gives exactly the entry map in the log at that image, or the length error |
| `Session.ImageOfRun` | src/storage/local_store.rs:231-271 | every image of a run was shown during one of its operations: it shows the map committed before that operation, or, as the last image of one that answers success, the map in memory |
| `Session.CrashDuringRun` | src/storage/local_store.rs:231-345 | a crash at any step of any run, reopened, gives exactly the map committed before the interrupted operation or the one that operation had just committed: nothing partial, mixed, older or lost |
| `Session.CommittedNext` | src/storage/local_store.rs:277-345 | the file holds the map in memory after an operation that answers success with a save, and what it held before otherwise |
| `Session.Perform` | src/storage/local_store.rs:308-345 | one put, get or delete: its answer, the secrets in memory after it, and its images |
| `Session.RunSession` | src/storage/local_store.rs:277-345 | any sequence of puts, gets and deletes with any failures is such a run |
| `Session.HistoryIsLogRun` | src/storage/local_store.rs:277-345 | so the crash theorem covers it |
| `Session.InStep` | src/storage/local_store.rs:277-345 | while no save fails, file and memory agree between any two operations |
| `Agent.TokenEq` | src/cli/agent.rs:157-162 | the length check and byte-wise comparison decide equality |
| `Agent.Agent.Handle` | src/cli/agent.rs:117-153 | each request is answered as the map answers it; a wrong token changes neither memory nor disk |
| `Agent.Agent.Serve` | src/cli/agent.rs:96-115 | every run of the loop is a run over the map, which is at each request what the vault in memory decrypts to, and of which the disk shows exactly what acknowledged puts commit; a valid sign-out, and nothing else, locks the vault and ends service; every accepted connection touches the clock |
| `Agent.ExitRecovers` | src/cli/agent.rs:273-284 | whenever the process is ended, even inside a save, the vault reopens to the very map the agent had in memory after the last acknowledged put up to the interrupted request, or to what the file held at the start; only a file past the length limit does not open |
| `Agent.ExitRecoversReplay` | src/cli/agent.rs:96-153 | while saves succeed that is the plain map of the acknowledged puts, up to the interrupted request or just before it |
| `Agent.TouchesIgnoreTokens` | src/cli/agent.rs:98-106 | what postpones the watchdog is the number of accepted connections, whoever makes them |
| `Agent.FramesInOrder` | src/cli/agent.rs:96-115 | every request that arrives is served, in order |
| `AgentProtocol.RefinesMap` | src/cli/agent.rs:117-153 | while saves succeed the vault is the map built by the acknowledged puts alone |
| `AgentProtocol.GetReturnsLastPut` | src/cli/agent.rs:121-137 | a get returns the value of the last put of its name that reached memory |
| `AgentProtocol.GetReturnsLastAcknowledgedIff` | src/cli/agent.rs:121-137 | a get returns the last acknowledged put of its name unless the last put of that name to reach memory is a later one whose save failed, with another value |
| `AgentProtocol.GetCanMissTheAcknowledged` | src/cli/agent.rs:121-137 | a run where it returns an unsaved value instead |
| `AgentProtocol.StrangersLearnNothing` | src/cli/agent.rs:117-120 | in any run, leaving out the requests with other tokens leaves a run with the same states and the same answers to the rest; the requests left out see one constant answer |
| `ActivityClock.AlwaysSane` | src/cli/agent.rs:38-60 | under every interleaving the shared word never runs ahead of the time |
| `ActivityClock.LookExitsIff` | src/cli/agent.rs:54-60 | an undisturbed look exits exactly when the word it reads is at least the limit older than the time it reads |
| `ActivityClock.ExitWasIdleAtLoad` | src/cli/agent.rs:54-60 | the watchdog exits only if every touch visible when it loaded the word was at least `idle` older than the time it had read; nothing is cut off by saturation then |
| `ActivityClock.TouchBetweenReadsKeepsAlive` | src/cli/agent.rs:54-60 | a touch read and stored between the two reads of the watchdog gives idle time zero, never a wrapped-around value, and acting on that exits for no limit but zero |
| `ActivityClock.ExitIsIdleIff` | src/cli/agent.rs:273-284 | at the exit the agent has really been idle for the limit exactly when every touch stored after the load was read at least the limit before |
| `ActivityClock.ExitCanBeOvertaken` | src/cli/agent.rs:273-284 | for every limit there is a run that exits at a moment of no idleness at all |
| `Names.Sort` | src/ui/mod.rs:382-384 | sorting distinct names yields the one sorted list of their set |
| `Names.SortedIsUnique` | src/ui/mod.rs:382-384 | a set of names has only one sorted list |
| `Names.BeforeIff` | src/ui/mod.rs:384 | the order is that of a dictionary: the first differing character decides, and a name comes before its extensions |
| `InteractionTheorems.LockForgets` | src/ui/mod.rs:301-314 | in any two sessions on the same tab, in any mode and with anything open, nothing that ever follows Ctrl-L depends on what was open |
| `InteractionTheorems.UntouchedEdit` | src/ui/mod.rs:467-491 | opening an entry in the editor and saving it untouched leaves the vault as it was exactly when the value fits the editor or the name is refused |
| `Tui.App.RefreshNames` | src/ui/mod.rs:381-389 | the list becomes the sorted names of the vault and the selection is clamped into it |
| `Tui.App.SelectName` | src/ui/mod.rs:395-399 | selects the first place of a listed name |
| `Tui.App.SaveEditedValue` | src/ui/mod.rs:409-412 | stores, and refreshes the list only on success |
| `Tui.App.DeleteNamed` | src/ui/mod.rs:414-420 | removes, and moves the selection and refreshes only on success |
| `Tui.App.Step` | src/ui/mod.rs:520-1002 | the key handlers of all ten modes compute the next state of the interaction, and quit on Esc in three of them |
| `Tui.App.HandleKey` | src/ui/mod.rs:496-518 | Ctrl-C, the activity timer, Ctrl-L and the overlay come before the mode; the object keeps its invariants |
| `Tui.App.RunApp` | src/ui/mod.rs:1031-1047 | the event loop makes a run, over any keys, ticks and outcomes, and stops at the first key that quits; the invariants hold at every pass, and while saves succeed the list is right and no pending name is in the vault |
| `Tui.PutReflects` | src/core/manager.rs:143-145 | storing in the persistent vault has exactly the outcomes the front end reckons with |
| `Tui.DeleteReflects` | src/core/manager.rs:163-165 | and so has deleting |
| `InteractionTheorems.StepKeepsSane` | src/ui/mod.rs:520-1002 | every key in every mode keeps: vault open iff the mode is neither Unlock nor CreateVault; tab and selection in range; nothing held while locked; pending names unlisted, and names being edited or deleted listed |
| `InteractionTheorems.KeyEffect` | src/ui/mod.rs:496-1002 | which key in which mode changes the vault, and how; all others leave it alone |
| `InteractionTheorems.KeyNames` | src/ui/mod.rs:496-1002 | the list changes exactly on opening, locking and successful storing or deleting |
| `InteractionTheorems.SyncKeptIff` | src/ui/mod.rs:381-463 | the list stays the sorted set of vault names exactly when no save of a new name and no save of a deletion fails; the next success restores it |
| `InteractionTheorems.FailedSaveDesyncs` | src/ui/mod.rs:409-412 | a state and a key after which the list lacks an entry of the vault |
| `InteractionTheorems.InitialIsSane` | src/ui/mod.rs:153-182 | the front end starts with these invariants |
| `InteractionTheorems.RunInvariant` | src/ui/mod.rs:1031-1047 | they hold throughout every run; while saves succeed the list is right and no pending name is in the vault |
| `InteractionTheorems.NothingOverwritten` | src/ui/mod.rs:717-1000 | while saves succeed no add or import flow changes an existing entry: only saving an edit of it or confirming its deletion does |
| `InteractionTheorems.OpenVaultIsFile` | src/ui/mod.rs:422-426 | while saves succeed and unlocking opens the file, an open vault is exactly what was last saved, so an unlock after any lock shows it again |
| `InteractionTheorems.EntriesSurviveLocks` | src/ui/mod.rs:717-1000 | across any number of locks and unlocks an entry changes only by saving an edit of it or confirming its deletion |
| `InteractionTheorems.Provenance` | src/ui/mod.rs:520-1002 | whatever fails, every value in an open vault was there before or was written by one of the user's keys |
| `InteractionTheorems.ImportWasReceived` | src/ui/mod.rs:331-377 | a bundle is up for confirmation only because `r` received that very bundle and no key has been pressed since |
| `InteractionTheorems.ImportsOnlyByYes` | src/ui/mod.rs:977-1000 | from a pending import only `y` writes to the vault, under the name and with the bytes received |
| `InteractionTheorems.BundlesDoNotLeak` | src/ui/mod.rs:331-377 | runs that differ only in the bundles received, prompt at the same times and confirm none have the same vaults throughout |
| `InteractionTheorems.IdleRun` | src/ui/mod.rs:317-325 | without keys the state stays as it is until a check finds the timeout passed, and then it is the locked state |
| `InteractionTheorems.LateKeyIff` | src/ui/mod.rs:1037-1045 | a key acts on a vault idle for the whole timeout exactly when the timeout has passed since the check before it |
| `InteractionTheorems.LateKeyActs` | src/ui/mod.rs:1037-1045 | for every timeout a run from the initial state, with an idle check just before the timeout, in which a key pressed at it deletes an entry |
| `InteractionFlows.RunEndsAfter` | src/ui/mod.rs:1031-1047 | every run ends in the state that its passes lead to, so what follows holds in every run |
| `InteractionFlows.PausesIgnored` | src/ui/mod.rs:1033-1045 | time between keys, short of the timeout, makes no difference |
| `InteractionFlows.Typing` | src/ui/mod.rs:522-837 | in every input form the characters of any text append exactly that text and change nothing else |
| `InteractionFlows.Erasing` | src/ui/mod.rs:522-837 | n Backspaces remove the last n characters, all of them if there are fewer |
| `InteractionFlows.TypeThenErase` | src/ui/mod.rs:522-837 | typing a text and erasing as many characters changes nothing |
| `InteractionFlows.TypingText` | src/ui/mod.rs:872-879 | in the editor the characters of a text that fits, line breaks by Enter, append its encoding |
| `InteractionFlows.TextKeyErased` | src/ui/mod.rs:872-879 | a character that fits and then Backspace leave the editor as it was |
| `InteractionFlows.Unlocking` | src/ui/mod.rs:522-543 | a passphrase and Enter open what is behind exactly that passphrase and list its names, or leave the empty prompt |
| `InteractionFlows.Creating` | src/ui/mod.rs:556-609 | a new vault takes the same nonempty passphrase twice and is empty; anything else starts over |
| `InteractionTasks.Moving` | src/ui/mod.rs:456-463 | n times Down or Up move the selection by n entries and stop at the ends |
| `InteractionTasks.Reaching` | src/ui/mod.rs:456-463 | every entry can be selected, from any selection |
| `InteractionTasks.Tabbing` | src/ui/mod.rs:446-455 | Tab and BackTab alternate between the two tabs |
| `InteractionTasks.Revealing` | src/ui/mod.rs:660-670 | `s` shows a value for ten seconds, or until the selection moves |
| `InteractionTasks.Adding` | src/ui/mod.rs:672-880 | `a`, a fresh name, Enter, a text that fits and Ctrl-S leave the vault with exactly that entry added and selected; when storing fails the text is kept |
| `InteractionTasks.AddingGivenUp` | src/ui/mod.rs:868-871 | Esc in place of Ctrl-S leaves everything as it was |
| `InteractionTasks.NameNotTaken` | src/ui/mod.rs:722-767 | an empty name or one in the list is not taken and stays to be corrected |
| `InteractionTasks.Editing` | src/ui/mod.rs:838-880 | `e`, a text and Ctrl-S append the text to the selected entry's value |
| `InteractionTasks.AddingTotp` | src/ui/mod.rs:682-836 | `t`, a fresh name, Enter, a seed or URI and Enter store a URI that reads back as what was typed; anything else is refused and stays |
| `InteractionTasks.Minting` | src/ui/mod.rs:263-297 | Ctrl-G stores 20 fresh bytes as a SHA-1 code of 6 digits every 30 seconds, and shows exactly the URI it stored |
| `InteractionTasks.CodeDismissed` | src/ui/mod.rs:508-512 | the key after a shown QR code only takes it away, unless it locks or quits |
| `InteractionTasks.Deleting` | src/ui/mod.rs:691-975 | `d` and `y` remove exactly the selected entry; `d` and another key change nothing |
| `InteractionTasks.DeletionShown` | src/ui/mod.rs:414-420 | after a deletion the list is as before without the entry, and the entry above it is selected |
| `InteractionTasks.Importing` | src/ui/mod.rs:701-1000 | `r` and `y` store the received secret under the name it came with; `r` and another key store nothing |
| `InteractionTasks.BundleRefused` | src/ui/mod.rs:331-377 | without a bundle, a pairing code or a free name nothing is imported |
| `InteractionTasks.Pairing` | src/ui/mod.rs:210-219 | the network tab makes one pairing code and keeps it; `q` shows it |
| `InteractionTasks.CountTyped` | src/ui/mod.rs:908-919 | of the digits typed for a length the first four count |
| `InteractionTasks.Generating` | src/ui/mod.rs:855-954 | Ctrl-G, a kind, a number and Enter put into the editor what was generated: 1 to 256 words or characters as asked, else 6 words or 20 characters |
| `InteractionTasks.EscLeadsOut` | src/ui/mod.rs:520-1002 | from every state at most three times Esc reach one in which Esc quits, without a change to the vault or the list |
| `InteractionTasks.PromptToEntry` | src/ui/mod.rs:1031-1047 | a run from the start in which a passphrase, a name not in the vault behind it and a text that fits are typed and saved ends with that vault and exactly this entry added |
| `Base32.DecodeBase32` | src/core/totp.rs:118-145 | the 32-bit accumulator, which sheds its high bits, computes the whole bytes of the symbols' bit string |
| `Base32.EncodeBase32` | src/core/totp.rs:165-182 | the encoder writes the symbols of the zero-padded bit string |
| `Base32.RoundTrip` | src/core/totp.rs:118-182 | decode(encode(v)) = v for every nonempty v |
| `Base32.DecodesLeadingBits` | src/core/totp.rs:118-145 | an accepted text of k symbols decodes to the first floor(5k/8) bytes of their bit string |
| `Base32.CaseIgnored` | src/core/totp.rs:123 | case does not matter |
| `Base32.SeparatorIgnored` | src/core/totp.rs:124-126 | a `=`, space or `-` may be inserted anywhere |
| `Base32.Alphabet` | src/core/totp.rs:165-166 | the 32 symbols are the letters and then 2 to 7, and lower-case letters read the same |
| `Base32.EncodedSpells` | src/core/totp.rs:165-182 | what is written spells the bits of the data and fewer than five zeros |
| `Otpauth.ParseOtpauth` | src/core/totp.rs:66-113 | the parameter loop reads prefix, query and fields as the code does, later parameters overriding earlier ones |
| `Otpauth.Parse` | src/core/totp.rs:46-64 | an otpauth URI first, then a bare seed of at least 16 bytes |
| `Otpauth.EncodeLabel` | src/core/totp.rs:185-196 | percent-encoding byte by byte |
| `Otpauth.LabelHasNoQuestionMark` | src/core/totp.rs:185-196 | an encoded label never contains `?` |
| `Otpauth.UriReadsBackIff` | src/core/totp.rs:46-196 | parse(to_uri(cfg, label)) = cfg exactly for configurations with a secret, 1 to 9 digits and a positive period |
| `Otpauth.StoringKeepsMeaning` | src/core/totp.rs:46-162 | so for every accepted input and every label the stored URI means what was typed |
| `Otpauth.BareSeedMeans` | src/core/totp.rs:46-64 | a bare seed is a SHA-1 code of 6 digits every 30 seconds, when it has at least 16 bytes and is base32 |
| `Otpauth.SecretOnlyMeans` | src/core/totp.rs:66-113 | so is a URI with a secret alone |
| `Otpauth.UriMeans` | src/core/totp.rs:66-113 | a URI with all four parameters: each is taken when in range and defaulted otherwise, and an unknown algorithm refuses the whole |
| `Otpauth.AlgorithmNames` | src/core/totp.rs:96-103 | the three algorithm names, in either case, and no others |
| `Otpauth.KeyCaseIgnored` | src/core/totp.rs:79-107 | parameter keys that differ in case only mean the same, and other keys mean nothing |
| `Otpauth.SurroundingsIgnored` | src/core/totp.rs:46-47 | white space around the value changes nothing |
| `Otpauth.LabelReadsBack` | src/core/totp.rs:185-196 | a label percent-decodes (section 2.1 of RFC 3986) to the bytes of the name |
| `Otpauth.EscapedIff` | src/core/totp.rs:185-196 | exactly letters, digits and `-_.~/:` are not escaped |
| `Hotp.TruncationIsStandard` | src/core/totp.rs:235-239 | the masked four-byte read is the dynamic truncation of section 5.3 of RFC 4226, in bounds for every hash of 20 bytes or more |
| `Hotp.CodeIsStandard` | src/core/totp.rs:199-243 | every code is exactly `digits` decimal characters that read back as the truncation mod 10^digits of the hash of the 8 bytes whose big-endian value is the number of whole periods |
| `Hotp.OneMessage` | src/core/totp.rs:211-212 | every counter has exactly one 8-byte big-endian message |
| `Hotp.TruncationExample` | src/core/totp.rs:233-242 | the example of section 5.4 of RFC 4226 comes out |
| `Hotp.CodeConstantOverPeriod` | src/core/totp.rs:199-209 | the code stays the same until seconds_remaining is over |
| `Hotp.RemainingIsExact` | src/core/totp.rs:205-208 | seconds_remaining is the exact distance to the next multiple of the period |
| `Passphrase.SelectWords` | src/core/passphrase.rs:38-66 | the bit loops, always in bounds, pick the words of consecutive big-endian fields, with the errors of the code |
| `Passphrase.ReadField` | src/core/passphrase.rs:56-61 | the inner loop reads the next field of the bit stream |
| `Passphrase.RefusedIff` | src/core/passphrase.rs:39-42 | a word list is refused exactly when its size is not a power of two above 1 |
| `Passphrase.Unbiased` | src/core/passphrase.rs:32-37 | every index sequence comes from exactly one setting of the bits used |
| `Passphrase.WordAt` | src/core/passphrase.rs:52-65 | word i is the one numbered by the i-th field of the random bits |
| `Passphrase.StreamBit` | src/core/passphrase.rs:56-61 | bit p of the stream is bit 7 - p mod 8 of byte p / 8 |
| `Passphrase.UnbiasedWords` | src/core/passphrase.rs:32-37 | from a list without duplicates every sequence of its words comes from exactly one setting of the bits used |
| `Passphrase.ShortfallIsExact` | src/core/passphrase.rs:44-50 | a refusal for want of bytes names the bytes given and the least number that suffices |
| `Passphrase.TrailingBitsIgnored` | src/core/passphrase.rs:52-65 | the remaining bits have no influence |
| `Passphrase.RequiredIsExact` | src/core/passphrase.rs:69-74 | selection succeeds on exactly the byte strings of `required_random_bytes` or more, and yields `count` words |
| `Passphrase.EntropyIsExact` | src/core/passphrase.rs:25-31 | two to the reported entropy is the number of possible phrases |
| `Passphrase.GenerationSucceeds` | src/core/manager.rs:47-54 | passphrase generation fails only if the entropy source does, and else joins `count` words of the list |
| `Passphrase.JoinSplits` | src/core/manager.rs:47-54 | splitting a phrase at its spaces gives back the words |
| `Password.GeneratePassword` | src/core/manager.rs:59-78 | the result is the first `len` accepted bytes of the whole drawn stream, mapped through the charset; it stops once the stream suffices or a draw fails |
| `Password.TakeAccepted` | src/core/manager.rs:68-75 | one chunk contributes its accepted bytes in order, and no more than are wanted |
| `Password.NoModuloBias` | src/core/manager.rs:64-70 | for every charset size 1..=256 each position has exactly floor(256/n) accepted byte values |
| `Password.NoCharacterBias` | src/core/manager.rs:64-75 | from a charset without duplicates every character comes from exactly floor(256/n) accepted byte values |
| `Password.CharacterAt` | src/core/manager.rs:67-78 | character i is the charset's at the i-th accepted byte modulo its size |
| `Password.LimitIsLargest` | src/core/manager.rs:64-65 | the limit is the largest multiple of n within a byte's range |
| `Password.ChunkingIrrelevant` | src/core/manager.rs:67-76 | only the stream matters, not how the draws cut it |
| `Password.DrawsAreNecessary` | src/core/manager.rs:67 | the loop makes exactly as many draws as it needs |
| `Password.EveryChunkHelps` | src/core/manager.rs:67 | with an accepted byte in every chunk k draws give at least k characters |
| `Password.AsciiPassword` | src/core/manager.rs:56-78 | from an ASCII charset the password is `len` characters, each of the charset |
| `Editor.SecureEditor.FromBytes` | src/ui/editor.rs:31-40 | a seed is cut at capacity and the rest of the buffer is zero |
| `Editor.SecureEditor.PushChar` | src/ui/editor.rs:51-62 | appends the encoding of a character, or nothing when it does not fit; the tail stays zero |
| `Editor.SecureEditor.Backspace` | src/ui/editor.rs:65-86 | removes the last character and zeroes its bytes |
| `Editor.EditsRefine` | src/ui/editor.rs:51-86 | from a valid seed, after any edits, the bytes are the UTF-8 encoding of the abstract text |
| `Editor.BackspaceUndoesPush` | src/ui/editor.rs:51-86 | backspace undoes a push that fits, whatever the buffer held |
| `Editor.EditsFit` | src/ui/editor.rs:51-62 | no edits exceed the capacity |
| `Editor.CutSeedIsText` | src/ui/editor.rs:31-40 | a seed cut at capacity is still text exactly when the cut does not split a character |
| `Editor.CutCanSplitACharacter` | src/ui/editor.rs:31-40 | a text that is cut inside its last character |
| `Utf8.EncodeInjective` | src/ui/editor.rs:51-62 | different texts have different encodings (section 3 of RFC 3629) |
| `Utf8.EncodingTable` | src/ui/editor.rs:51-62 | the lengths and the examples of RFC 3629, sections 3 and 7 |

## Left out

- BundlesDoNotLeak: compares runs that prompt at the same times; a prompt takes the next key, so runs that prompt at different times part by that key.
- Soundness: SHA-512 is not assumed injective, which no function with 64-byte values is; the assumption is stated for the shares at hand.
- PerfectSecrecy: is stated as a bijection on coefficient draws rather than with probabilities.
- GeneratePassword: termination is relative to a bound after which the stream suffices or a draw fails; for a stream that never suffices the loop does not end.
- ReadWords: `count * bits` is unbounded here; in the code it can overflow `usize` for counts no caller uses.
- Handle: error texts are represented by error values.
- Argon2, HKDF, SHA-2, HMAC, the AEAD, base64, bincode, ML-KEM, ML-DSA and QR rendering: functions with the inverse or length laws stated in `Lawful`, `LawfulCodec` and `LawfulHmac`.
- Zeroization, memory locking and constant-time behaviour, except the zero tail of the editor's buffer.
- Sub-threshold rejection by the integrity tag alone, which holds only up to coincidence of hashes; the token layer's count check is modelled instead.
- `encode_share` cannot fail here; serializing this structure does not fail.
- Two sessions on one vault file; the source documents last-writer-wins.
- The moment inside `create` between reserving the path and the first save; the crash property starts once `create` has succeeded.
- fsync and the loss of renames that the operating system had reported as done.
- Sockets, frames, terminal events, the clipboard and pairing-code files: their results are parameters.
- The front end's error and status lines, its drawing, and the `reveal` countdown beyond the time it is set to.
- The front end's editor contents are a byte sequence changed by the functions that `Editor.SecureEditor` is proved against.
- The in-RAM store, the client commands, pairing cryptography, paths and process start-up.
- Millisecond counters of the clock do not wrap around at 2^64.
- Bytes are bit vectors in the sharing modules, where XOR is the point, and integers below 256 elsewhere.
- `split_into_tokens` and `decode_share` are functions, as they are maps over lists in the source.
