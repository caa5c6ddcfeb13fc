# avault: verified models

avault is a custody core for secrets. This project models its most intricate parts in Dafny and proves what they
promise: for every interleaving, every run and every input. `dafny verify dfyconfig.toml` checks all of it.

The models come in independent groups, each in its own modules.

- **The resident agent.** `AgentTable` and `MasterCache` hold the grant table and the cached master as classes that
  are updated in place, each method proved against a function on values. `AgentProtocol` uses those functions as the
  critical sections of a transition system: any number of threads, three locks, a monotone clock that may advance
  between any two steps (so between the two clock readings of one critical section), a store loader that may take
  arbitrarily long, and reference-counted key pages. Every list of actions is an interleaving; `log` records what
  happened, and the theorems are statements about the log or the state of every run. Lock discipline is in
  `AgentLocks`, single use of approvals in `AgentApprovals` and `AgentReplay`, the life of a grant in
  `AgentLiveness`, the cached master in `AgentCacheRuns`, and key handles in `AgentHandles` and `AgentMasterHandles`.
- **The Keychain authorization gate.** `CooldownRecord` is the record file, `AuthorizationGate` the protocol of any
  number of callers with crashes, failed and cut-short writes, and `GateWindows` its cooldown windows.
- **Key stores.** `KeyStoreConsensus` covers concurrent callers of one file, passphrase, TPM or Keychain store;
  `AutoPolicy` the Linux policy over a file and a TPM, with every access failing as it pleases and operations cut
  short after any write; `MacAutoPolicy` the macOS policy over a file and the Keychain, with callers interleaved.
- **The key-import JSON scanner.** `JsonString` has the grammar of strings and the decoding loops, `JsonValue` the
  grammar of texts and the end of a value, `JsonLookup` the member lookup, `JsonScanner` the loops of the source.
  `JsonRfcStrings` tells the strings of RFC 8259 from the others that decode. `JsonText` writes strings as
  `serde_json` does, and `InjectJson` is the JSON file for delivered secrets, read back with the lookup.
- **Delivery.** `Redaction`, `QueryRedaction`, `QueryUrl`, `Dotenv`, `HelperFrame`, over `ShellNames`, `BigEndian`,
  `Utf8` and `Bytes`.
- **Binding of ciphertexts.** `BlindBox` over an ideal HPKE and any hash, `Envelope` over an ideal AEAD.
- **Taproot.** `PrimeGroup` is a cyclic group with an x-only projection, whose laws `LawsHaveModel` shows to be
  consistent, and `Taproot` the key-path tweak and signatures.

Five results qualify what the source says of itself.

- The agent is meant to reject a replayed approval nonce until the approval expires (docs/DESIGN.md:557). The deadline
  it computes for an approval, however, comes from a monotone reading followed by a wall-clock reading, and falls short
  of the expiry by the time between the two. The model follows the code: `AgentReplay.ApprovalTwiceAfterSlowRead`
  builds a run, from requests that pass every check, in which one approval is published twice,
  `AgentApprovals.NonceReuseWindow` says exactly when that can be, and `AgentReplay.UsedOnceExactly` that it is
  excluded if and only if the two readings coincide.
- The Linux `auto` policy is meant to keep the file and the TPM on one key. With no import at all, a creating load can
  leave them with two: when sealing in the TPM fails after its blob was installed, and the failure reads as a missing
  TPM, the fallback installs another key in a file without looking whether the TPM has one, as an import does.
  `AutoPolicy.CreatingLoadMayDiverge` is the case, `AutoPolicy.DivergesExactly` the exact condition for one operation,
  and `AutoPolicy.RunDivergesExactly` lifts it to runs. The keys that loads return still agree
  (`AutoPolicy.OneKeyPerRun`).
- The macOS `auto` policy is meant to keep the file and the Keychain on one key too. A forced import writes one and then
  the other, so a crash between the writes, or another forced import, can leave them with two; two overlapping imports
  that both succeed are enough (`MacAutoPolicy.OverlapLeavesTwoKeys`). `MacAutoPolicy.DiffersExactly` and
  `MacAutoPolicy.RunDiffersExactly` are the exact conditions.
- Redaction does not leave every credential absent, since the marker may contain or complete it. For one pass, as for a
  header credential, `Redaction.RemovedForGoodExactly` is the exact condition on the credential. Over lists it is not
  enough, since the marker put for one needle may complete another: `Redaction.AlwaysRemovedExactly` is the condition
  there, and `QueryRedaction.QueryRemovedExactly` that of the list made for a credential in a query, which
  `QueryRedaction.QueryNeedlesLeave` shows to be stronger.
- The key-import scanner reads JSON strings of bytes that are not UTF-8, which RFC 8259 does not allow
  (`JsonRfcStrings.DecodesBeyondRfc`). `JsonRfcStrings.DecodesRfcExactly` separates them from those it does.

## Model

| member | source | states |
|---|---|---|
| `AgentTable.AgentState.constructor` | crates/avault-cli/src/main.rs:2212-2219 | A new table is empty, with the idle clock at a reading of the clock. |
| `AgentTable.AgentState.Purge` | crates/avault-cli/src/main.rs:2227-2235 | Takes the table to `Purged` at one clock reading: all grants go when idle, else those past their deadline; used nonces go once their deadline has passed. |
| `AgentTable.AgentState.RecordActivity` | crates/avault-cli/src/main.rs:2221-2225 | Purges at one reading and only then moves the idle clock, to a second, later reading. |
| `AgentTable.AgentState.GetLiveGrant` | crates/avault-cli/src/main.rs:2237-2250 | Answers with the stored entry if and only if the table is not idle and the grant is there and before its deadline; changes nothing. |
| `AgentTable.AgentState.PublishGrant` | crates/avault-cli/src/main.rs:2255-2277 | After a purge at one reading, publishes, consumes the nonces and records activity all at a second reading, or refuses and changes nothing but what the purge removed. |
| `AgentTable.AgentState.Release` | crates/avault-cli/src/main.rs:2968-2976 | Reports whether the grant survived the purge, removes it and only it, and counts as activity only if it was there. |
| `AgentTable.ExtendedIs` | crates/avault-cli/src/main.rs:2273 | Extending the table of used nonces with distinct ones keeps every other entry, holds each new one with its deadline, and adds nothing else. |
| `MasterCache.AgentMasterCache.constructor` | crates/avault-cli/src/main.rs:2319-2327 | A new cache is empty. |
| `MasterCache.AgentMasterCache.Expire` | crates/avault-cli/src/main.rs:2368-2375 | Drops the key exactly when it has not been used for the idle timeout. |
| `MasterCache.AgentMasterCache.Purge` | crates/avault-cli/src/main.rs:2353-2357 | The same, at a fresh clock reading. |
| `MasterCache.AgentMasterCache.UseCached` | crates/avault-cli/src/main.rs:2359-2366 | Returns the cached key if it is still fresh and moves its last use to the reading; otherwise leaves the cache empty. |
| `MasterCache.AgentMasterCache.Get` | crates/avault-cli/src/main.rs:2331-2350 | An unlocked master is returned as it is; a fresh cached key is returned without asking the store; otherwise the store is asked and a successful load is cached, a failed one is not. |
| `AgentApprovals.NonceReuseWindow` | crates/avault-cli/src/main.rs:2255-2277 | In every interleaved run, two grants that consumed one nonce were published on either side of the deadline computed for the first, and before the one computed for the second. |
| `AgentApprovals.NoApprovalTwice` | crates/avault-cli/src/main.rs:2893-2901 | When deadlines equal the approvals' expiries, no approval is ever published in two grants, although purging forgets used nonces. |
| `AgentApprovals.PublishedExactlyWhen` | crates/avault-cli/src/main.rs:2955-2965 | In every reachable state, a grant about to be published is published if and only if its TTL and all its deadlines are ahead and none of its nonces was consumed with a deadline the purge of this critical section had not reached. |
| `AgentReplay.ApprovalTwiceAfterSlowRead` | crates/avault-cli/src/main.rs:476-488 | For every approval that parses, every TTL allowed and every lag below it: if that much time passes between the two clock readings of one deadline and none between those of the next, a run publishes the approval twice. |
| `AgentReplay.UsedOnceExactly` | crates/avault-cli/src/main.rs:476-488 | If all that is known of those two readings is that they are at most `lag` apart, approvals are used once in every run if and only if `lag` is zero. |
| `AgentLiveness.NoRevival` | crates/avault-cli/src/main.rs:2237-2250 | In every run, once a check found a grant not live or a release removed it, no later check finds it live unless it was published in between. |
| `AgentLiveness.LiveWithinBounds` | crates/avault-cli/src/main.rs:2885-2897 | Every check that finds a grant live follows a publication nothing has since replaced or removed, within that grant's TTL and before each of its approval deadlines. |
| `AgentLiveness.OpensOnlySnapshot` | crates/avault-cli/src/main.rs:2426-2445 | A request opening envelopes does so with exactly the keys published under its grant, after a snapshot that found it live; a release before the snapshot, with no publication between, excludes that. |
| `AgentEffects.IdleClockMovesOnly` | crates/avault-cli/src/main.rs:2426-2445 | Only three program points move the idle clock: the publication of a grant, the end of a request past its opening phase, and the end of a release. |
| `AgentEffects.IdleClockMovesAfterSuccess` | crates/avault-cli/src/main.rs:2426-2445 | In every run, what moves the idle clock is a publication, a thread whose request had its envelopes opened, or one whose release had removed its grant, and that has done nothing else since: failed requests do not extend it. |
| `AgentCacheRuns.LoadFillsEmptyCache` | crates/avault-cli/src/main.rs:2343-2349 | In every run, a thread about to store a loaded master finds the cache empty: a load overwrites nothing. |
| `AgentCacheRuns.NeverStaleHit` | crates/avault-cli/src/main.rs:2359-2375 | Every key returned from the cache was stored or used, as that key, less than the idle timeout before. |
| `AgentCacheRuns.LoadsIdleApart` | crates/avault-cli/src/main.rs:2331-2350 | After a load has been stored, the next store access starts at least the idle timeout later. |
| `AgentCacheRuns.LastUsedMovesForward` | crates/avault-cli/src/main.rs:2377-2385 | The time of last use never exceeds the clock and no action moves it back. |
| `AgentLocks.MutualExclusion` | crates/avault-cli/src/main.rs:2339-2349 | At most one thread is in the store loader and in each critical section; one in the loader holds neither the cache nor the state lock. |
| `AgentLocks.LockOrder` | crates/avault-cli/src/main.rs:2339-2344 | No thread asks for a lock out of order: loading before cache, and the state lock never together with another. |
| `AgentLocks.NoDeadlock` | crates/avault-cli/src/main.rs:2406-2445 | From every reachable state every busy thread can move, or waits along a chain of at most three threads whose last can. |
| `AgentHandles.HandlesAccounted` | crates/avault-cli/src/main.rs:2426-2445 | In every reachable state the handles on a DEK page are one if its grant is in the map or being opened, never both, plus one for each request in its open phase. |
| `AgentHandles.NoHandleOutsideCrypto` | crates/avault-cli/src/main.rs:2439-2442 | Once the grant has left the map and every thread is outside its in-memory crypto, whatever external work is under way, no handle on its keys is left. |
| `AgentHandles.ZeroizedForGood` | crates/avault-cli/src/main.rs:2439-2442 | A page without handles never gets one again. |
| `AgentMasterHandles.MasterHandlesAccounted` | crates/avault-cli/src/main.rs:2343-2349 | The handles on a loaded master are the cache's, if it is cached, and those of the threads using it. |
| `Decimal.ParsesBack` | crates/avault-store/src/lib.rs:1851 | Decimal text reads back as the number it was written from. |
| `Decimal.TextInjective` | crates/avault-store/src/lib.rs:1851 | Different numbers have different texts. |
| `CooldownRecord.RecordReadsBack` | crates/avault-store/src/lib.rs:1826-1829 | A record written completely is read back as the time it was written for. |
| `CooldownRecord.GateFile.RecordCooldown` | crates/avault-store/src/lib.rs:1848-1853 | Rewrites the file to the record, or reports failure and leaves the old record, or a proper prefix of the new one. |
| `CooldownRecord.GateFile.Cooldown` | crates/avault-store/src/lib.rs:1814-1845 | Passes an empty file, clears a window that is over, reports the rest of one, and rewrites anything unreadable or too far ahead to one window from now; says what the file holds after each failure. |
| `AuthorizationGate.PromptsExclusive` | crates/avault-store/src/lib.rs:1669-1693 | In every run of any number of callers, while one prompts no other is inside the gate. |
| `AuthorizationGate.WaitersNeverPrompt` | crates/avault-store/src/lib.rs:1685-1687 | Every prompt is shown by a caller that has not waited since it came in. |
| `GateWindows.NoPromptInWindow` | crates/avault-store/src/lib.rs:1682-1684 | After a recorded denial or a reported remainder, no caller starts a prompt before the end of that window. |
| `GateWindows.DenialCoolsDown` | crates/avault-store/src/lib.rs:1694-1708 | After a denial answered at a time, no prompt starts within 120 seconds of it, unless recording that denial failed or its caller died first. |
| `GateWindows.LostRecordPromptsAtOnce` | crates/avault-store/src/lib.rs:1694-1708 | That exception is real: a run in which the record is lost and the next caller prompts at once. |
| `GateWindows.OneWindowAtMost` | crates/avault-store/src/lib.rs:1810-1845 | Whatever the record holds, with no denial in between all refusals name the same end of the window, within 120 seconds of the first. |
| `GateWindows.PromptsAfterWindow` | crates/avault-store/src/lib.rs:1810-1845 | In every reachable state, once the window of some report is over with no denial since, a caller that finds the gate free prompts: nothing a record holds keeps prompts back for longer. |
| `GateWindows.ReportedRange` | crates/avault-store/src/lib.rs:1836-1843 | Every reported remainder is between 1 and 120 seconds. |
| `GateWindows.FreeGatePromptsExactlyWhen` | crates/avault-store/src/lib.rs:1669-1693 | A caller that finds the gate free prompts at once if and only if nothing is recorded or the recorded time has come. |
| `KeyStoreConsensus.AllAgree` | crates/avault-store/src/lib.rs:839-852 | In every interleaving of callers on one store, with any failures and crashes and no forced import, all callers that get a key get the same one. |
| `KeyStoreConsensus.ExistingItemKept` | crates/avault-store/src/lib.rs:915-923 | What is stored already is never replaced, also when it is unreadable or tried with a wrong passphrase; every success returns its key, and one with a passphrase only to that passphrase. |
| `KeyStoreConsensus.FilledOnce` | crates/avault-store/src/lib.rs:973-996 | An empty store is filled at most once. |
| `AutoPolicy.LoadKeepsChosen` | crates/avault-store/src/lib.rs:699-711 | A load returns the key the policy stands by or fails, and no write of it changes that key. |
| `AutoPolicy.LoadOrCreateKeepsChosen` | crates/avault-store/src/lib.rs:671-691 | The same of a creating load; over empty stores, where no key is chosen yet, the key it returns is the one later loads go by. What else it may leave is the row on `DivergesExactly`. |
| `AutoPolicy.FileKeyAuthoritative` | crates/avault-store/src/lib.rs:752-785 | With a file present a successful load returns the file's key, whatever the TPM holds. |
| `AutoPolicy.UnforcedImportKeepsKeys` | crates/avault-store/src/lib.rs:719-749 | An unforced import changes nothing unless both stores are empty, and then succeeds only by storing its key. |
| `AutoPolicy.ForcedImportInstalls` | crates/avault-store/src/lib.rs:719-749 | A successful forced import leaves its key as the one loads return, and no other key beside it. |
| `AutoPolicy.OneKeyPerRun` | crates/avault-store/src/lib.rs:671-711 | Over every run of loads, creating loads and unforced imports, with every access failing as it pleases and operations cut short, all successful loads return one key. |
| `AutoPolicy.CutImportDiverges` | crates/avault-store/src/lib.rs:732-739 | A forced import cut between its two writes leaves the TPM with the new key and the file with the old. |
| `AutoPolicy.DivergesExactly` | crates/avault-store/src/lib.rs:671-749 | From stores that do not differ, one action makes them differ if and only if it is a creating load over empty stores that seals a key, takes a later failure for a missing TPM and installs another key in a file (686-690), or a forced import over a file that is cut or fails between its writes. |
| `AutoPolicy.RunDivergesExactly` | crates/avault-store/src/lib.rs:671-749 | The stores differ somewhere in a run if and only if some action of it splits them in one of those ways. |
| `AutoPolicy.NeverDiverges` | crates/avault-store/src/lib.rs:671-749 | Without failures after a TPM installation, and with forced imports neither cut nor failing halfway, the stores never come to differ. |
| `AutoPolicy.CreatingLoadMayDiverge` | crates/avault-store/src/lib.rs:686-690 | The first way is real: with no import at all, a creating load returns a key and leaves another in the TPM, and from then on every load that can read the TPM refuses. |
| `AutoPolicy.DivergedRefuses` | crates/avault-store/src/lib.rs:757-766 | From diverged stores every load that can read the TPM refuses, and neither loads nor unforced imports write anything. |
| `AutoPolicy.DivergedStays` | crates/avault-store/src/lib.rs:757-766 | The refusal lasts over every run without a forced import. |
| `MacAutoPolicy.AllAgree` | crates/avault-store/src/lib.rs:606-627 | Under the macOS policy, in every interleaving of concurrent loads, creating loads and unforced imports, whatever Keychain access fails and whoever crashes, all successes are about one key, the file's if there is a file; no file is ever made and no Keychain key replaced. |
| `MacAutoPolicy.DiffersExactly` | crates/avault-store/src/lib.rs:630-646 | One action makes stores that do not differ do so if and only if a forced import writes its key into one of them, whatever it then reports, while the other holds another key; it makes stores that differ agree if and only if such a write is of the key the other holds. |
| `MacAutoPolicy.RunDiffersExactly` | crates/avault-store/src/lib.rs:630-646 | In every interleaving, forced imports, failures and crashes included, the stores differ at some point if and only if some action splits them in that way. |
| `MacAutoPolicy.UnforcedNeverDiffers` | crates/avault-store/src/lib.rs:606-653 | Without forced imports they never come to differ. |
| `MacAutoPolicy.OverlapLeavesTwoKeys` | crates/avault-store/src/lib.rs:630-646 | Two overlapping forced imports over a file can both succeed, with no failure and no crash, and leave one's key in the file and the other's in the Keychain. |
| `MacAutoPolicy.CutImportLeavesTwoKeys` | crates/avault-store/src/lib.rs:630-646 | The other way: a forced import over a file, cut between its two writes, leaves the Keychain with the new key and the file with the old. |
| `MacAutoPolicy.DifferentKeysRefuse` | crates/avault-store/src/lib.rs:805-836 | From stores with different keys, in every interleaving without a forced import, no load that the Keychain answers succeeds and nothing is written or imported; a caller for whom it is unavailable still gets the file's key. |
| `AutoPolicy.MachineStores.constructor` | crates/avault-store/src/lib.rs:671-678 | The stores as an operation finds them. |
| `AutoPolicy.MachineStores.CreateTpm` | crates/avault-store/src/lib.rs:1094-1112 | In place: the outcome, the stores afterwards and the states they went through, one per write, are those of the specification, as for the methods below. |
| `AutoPolicy.MachineStores.ImportTpm` | crates/avault-store/src/lib.rs:1077-1092 | An existing sealed key is replaced only by force. |
| `AutoPolicy.MachineStores.ImportFile` | crates/avault-store/src/lib.rs:943-971 | An existing file is replaced only by force. |
| `AutoPolicy.MachineStores.GetOrCreateTpm` | crates/avault-store/src/lib.rs:1039-1052 | Creates only on "not found", and reads what another caller created meanwhile. |
| `AutoPolicy.MachineStores.GetOrCreateFile` | crates/avault-store/src/lib.rs:915-923 | Creates after any failed read, without replacing a file, and reads back. |
| `AutoPolicy.MachineStores.MigrateFileKey` | crates/avault-store/src/lib.rs:752-785 | Puts the file's key into an empty TPM, refuses a different one, and goes by the file when the TPM is unavailable. |
| `AutoPolicy.MachineStores.LoadKey` | crates/avault-store/src/lib.rs:699-711 | The file's key, migrated, if there is a file; else the TPM's. |
| `AutoPolicy.MachineStores.LoadOrCreateKey` | crates/avault-store/src/lib.rs:671-691 | The same, creating in the TPM, or in a file when the TPM is unavailable. |
| `AutoPolicy.MachineStores.ImportKey` | crates/avault-store/src/lib.rs:719-749 | Writes the TPM first and the file second, and falls back to the file only when no sealed key exists. |
| `Utf8.ValidExactly` | crates/avault-cli/src/main.rs:1459 | The UTF-8 check accepts exactly the encodings of sequences of scalar values. |
| `JsonString.DecodeExactly` | crates/avault-cli/src/main.rs:1834-1874 | Decoding succeeds with some bytes if and only if the input starts with a string that denotes them, legal byte by byte, within the size cap: bytes from 0x20 up that are no quote or backslash may be raw, whether or not they are UTF-8. |
| `JsonRfcStrings.RfcExactly` | crates/avault-cli/src/main.rs:1834-1874 | A string that is legal byte by byte is one that section 7 of RFC 8259 allows if and only if its text is UTF-8. |
| `JsonRfcStrings.DecodesRfcExactly` | crates/avault-cli/src/main.rs:1834-1874 | Of the inputs that decode, those that start with a string of RFC 8259 are exactly those with UTF-8 between the quotes, and what they decode to is the UTF-8 of its scalar values. |
| `JsonRfcStrings.DecodesBeyondRfc` | crates/avault-cli/src/main.rs:1834-1874 | There are others: the byte 0xFF between quotes decodes to itself. |
| `JsonString.DecodesEveryEncoding` | crates/avault-cli/src/main.rs:1834-1941 | Every way of writing a string, raw, short escapes, `\u` and surrogate pairs, decodes to the UTF-8 of its scalar values up to the cap, and ends where it ends. |
| `JsonString.LoneSurrogateRejected` | crates/avault-cli/src/main.rs:1876-1898 | Wherever a surrogate escape is not half of a pair, decoding fails. |
| `JsonString.SameClosingQuote` | crates/avault-cli/src/main.rs:1921-1941 | Whenever decoding succeeds, the coarser search for the end stops right after the closing quote of the decoded string. |
| `JsonString.DecodeHexQuad` | crates/avault-cli/src/main.rs:1901-1910 | The loop over four hexadecimal digits, with its 16-bit shifts, computes their value or fails. |
| `JsonString.DecodeJsonUnicodeEscape` | crates/avault-cli/src/main.rs:1876-1898 | The escape after `\u` is one scalar value or a surrogate pair, with the bytes consumed. |
| `JsonString.DecodeJsonStringBytes` | crates/avault-cli/src/main.rs:1834-1874 | The decoding loop computes the specification on every input, with the same errors. |
| `JsonString.JsonStringEnd` | crates/avault-cli/src/main.rs:1921-1941 | So does the loop that finds the end of a string. |
| `JsonValue.SkipsValue` | crates/avault-cli/src/main.rs:1955-1987 | Inside any open brackets, the bracket-stack scan passes over a rendered value whole, whatever follows. |
| `JsonValue.ValueEndsExactly` | crates/avault-cli/src/main.rs:1943-1953 | The end found for any well-formed value (RFC 8259), at any nesting and with any white space, is exactly its end; after a number the next byte must not be able to continue it. |
| `JsonLookup.FindsExactly` | crates/avault-cli/src/main.rs:1795-1832 | On every well-formed object the lookup returns where the value of the first top-level member with that decoded key starts, never a nested one, or reports that there is none or that an earlier key exceeds the size cap. |
| `JsonLookup.FoundStands` | crates/avault-cli/src/main.rs:1795-1832 | At that place the member's value stands, followed by a byte that cannot continue a number. |
| `JsonLookup.ImportsWhatIsWritten` | crates/avault-cli/src/main.rs:1781-1793 | An import takes exactly the text of the first top-level `blob` and the bytes the first `passphrase` denotes, and refuses a passphrase that is not a string. |
| `JsonScanner.SkipJsonWs` | crates/avault-cli/src/main.rs:1999-2004 | The loop skips exactly the white space. |
| `JsonScanner.JsonScalarEnd` | crates/avault-cli/src/main.rs:1989-1997 | The loop stops at the first byte that cannot be part of a scalar. |
| `JsonScanner.JsonCompoundEnd` | crates/avault-cli/src/main.rs:1955-1987 | The loop over the bracket stack computes the specification on every input. |
| `JsonScanner.JsonValueEnd` | crates/avault-cli/src/main.rs:1943-1953 | So does the dispatch on the first byte of a value. |
| `JsonScanner.ReadColon` | crates/avault-cli/src/main.rs:1816-1820 | After a key: the colon and the white space around it. |
| `JsonScanner.ReadKey` | crates/avault-cli/src/main.rs:1803-1820 | The part of the lookup loop up to a value. |
| `JsonScanner.SkipMember` | crates/avault-cli/src/main.rs:1825-1830 | The part of the lookup loop after a value. |
| `JsonScanner.FindJsonFieldValue` | crates/avault-cli/src/main.rs:1795-1832 | The lookup loop computes the specification on every input. |
| `JsonText.DecodesEncoded` | crates/avault-core/src/lib.rs:375-377 | A string as `serde_json` writes it is decoded back to its bytes, up to the size cap. |
| `JsonText.EncodedUnique` | crates/avault-core/src/lib.rs:375-377 | Written strings can be told apart from each other and from what follows them. |
| `InjectJson.EverySecretFound` | crates/avault-cli/src/main.rs:1417-1438 | In the JSON file for a list of secrets with distinct names, looking up any name finds that secret's value, which decodes to exactly its bytes. |
| `InjectJson.FileIsDocument` | crates/avault-cli/src/main.rs:1417-1438 | The file is a well-formed JSON object and a newline. |
| `InjectJson.RenderJson` | crates/avault-cli/src/main.rs:1417-1438 | The loop writes that file, or fails with the error of the first value that is not text. |
| `Redaction.FindSubslice` | crates/avault-cli/src/main.rs:1311-1315 | The first occurrence, or none anywhere. |
| `Redaction.PiecesAreLeftmost` | crates/avault-cli/src/main.rs:1236-1239 | The scan cuts a body at leftmost non-overlapping matches: no piece has an earlier one, and joining the pieces with the needle gives the body back. |
| `Redaction.LeftmostUnique` | crates/avault-cli/src/main.rs:1250-1256 | There is only one such cut, so the counting and the rebuilding pass find the same matches. |
| `Redaction.RedactedLength` | crates/avault-cli/src/main.rs:1244-1247 | The predicted output length is exact, and matches times needle length never exceeds the body. |
| `Redaction.RedactedBodyLen` | crates/avault-cli/src/main.rs:1293-1309 | The checked arithmetic gives the exact length or reports that it does not fit a machine word; the unchecked subtraction never goes below zero. |
| `Redaction.RemovedForGoodExactly` | crates/avault-cli/src/main.rs:1230-1262 | One pass, which is all there is for a header credential (1071-1093), leaves no occurrence of its needle in any body if and only if the marker cannot complete it, a condition on the needle alone. |
| `Redaction.NoCommonByte` | crates/avault-cli/src/main.rs:1230-1262 | A needle without a byte in common with the marker meets that condition. |
| `Redaction.SomeLeak` | crates/avault-cli/src/main.rs:1230-1231 | Two needles that do not: one inside the marker, one completed by what follows it. |
| `Redaction.NoneSurvives` | crates/avault-cli/src/main.rs:1220-1228 | After the passes for all needles, none that no marker touches is left, whatever the others are; that no other needle is so safe is the next row. |
| `Redaction.AlwaysRemovedExactly` | crates/avault-cli/src/main.rs:1220-1228 | A needle is absent after the passes from every body and with every list that has it if and only if no overlap with the marker agrees with it. |
| `QueryRedaction.QueryRemovedExactly` | crates/avault-cli/src/main.rs:1094-1104 | For a credential in a query, whose list is itself and its encoding, the passes remove it from every body under exactly that condition. |
| `QueryRedaction.QueryReturnsWithoutExactly` | crates/avault-cli/src/main.rs:1220-1228 | The same with the size limits: no body within the limit that the passes accept is returned with the credential in it if and only if no overlap with the marker agrees with it. |
| `QueryRedaction.EncodingAlwaysRemoved` | crates/avault-cli/src/main.rs:1094-1104 | The encoding, where it differs from the credential, is removed from every body. |
| `QueryRedaction.QueryNeedlesLeave` | crates/avault-cli/src/main.rs:1094-1104 | The credential "[[" is removed by its own pass from every body, but the marker put for its encoding completes it again. |
| `Redaction.PassesRedact` | crates/avault-cli/src/main.rs:1220-1228 | Passes that are not refused give the replacements one after another, within the size limit. |
| `Redaction.FetchBody.Counted` | crates/avault-cli/src/main.rs:1235-1239 | The first loop counts the matches. |
| `Redaction.FetchBody.Rebuilt` | crates/avault-cli/src/main.rs:1249-1257 | The second loop builds the specified replacement. |
| `Redaction.FetchBody.RedactVerbatimBytes` | crates/avault-cli/src/main.rs:1230-1262 | In place: the body becomes the specified replacement, or stays as it is if and only if there is a match and the result exceeds the size limit. |
| `Redaction.FetchBody.RedactFetchBody` | crates/avault-cli/src/main.rs:1220-1228 | One pass per needle, in order, until one is refused; then an error, else the body after all passes, within the size limit. |
| `QueryUrl.EncodedQueryLen` | crates/avault-cli/src/main.rs:1531-1540 | The length of the encoding. |
| `QueryUrl.DecodesEncoded` | crates/avault-cli/src/main.rs:1514-1529 | Form decoding (section 5.1 of the WHATWG URL Standard) inverts the encoding of every byte string. |
| `QueryUrl.AddsExactlyOnePair` | crates/avault-cli/src/main.rs:1497-1512 | For every URL, name and value the result's query reads as the original pairs followed by exactly the new one; what stands before the query and the fragment are unchanged. |
| `QueryUrl.SecretString.Push` | crates/avault-cli/src/main.rs:1502-1511 | Appends, and reallocates only past the capacity. |
| `QueryUrl.SecretString.PushQueryEncoded` | crates/avault-cli/src/main.rs:1514-1529 | The loop appends exactly the encoding. |
| `QueryUrl.BuildSecretQueryUrl` | crates/avault-cli/src/main.rs:1497-1512 | Builds that URL, fills the reserved capacity exactly and never reallocates. |
| `ShellNames.FailsExactly` | crates/avault-cli/src/main.rs:1455-1460 | A list has a value that cannot be written if and only if some value has a NUL byte or is not UTF-8. |
| `ShellNames.NameIsText` | crates/avault-cli/src/main.rs:1440-1453 | A valid name is ASCII text without NUL bytes. |
| `Dotenv.RoundTrip` | crates/avault-cli/src/main.rs:1402-1415 | A POSIX reader recovers exactly the list that was written: names, values and order, quotes and newlines included. |
| `Dotenv.RenderFailsExactly` | crates/avault-cli/src/main.rs:1402-1415 | Writing fails if and only if some value has a NUL byte or is not UTF-8. |
| `Dotenv.WriteShellQuoted` | crates/avault-cli/src/main.rs:1480-1491 | The loop over characters appends the quoted value. |
| `Dotenv.RenderDotenv` | crates/avault-cli/src/main.rs:1402-1415 | The loop over secrets writes the file, or fails with the error of the first value that cannot be written. |
| `BigEndian.ValueOfBytes` | crates/avault-cli/src/main.rs:862-864 | Big-endian numbers read back. |
| `BigEndian.BytesOfValue` | crates/avault-cli/src/main.rs:911-917 | And only one encoding reads as each. |
| `BigEndian.FieldsDecode` | crates/avault-cli/src/main.rs:857-868 | A length-prefixed field can be told apart from what follows it. |
| `BigEndian.FieldsUnique` | crates/avault-core/src/blind_box.rs:121-129 | Length-prefixed lists of any lengths have different texts. |
| `HelperFrame.ReadsExactly` | crates/avault-cli/src/main.rs:871-908 | The reader accepts an input if and only if it begins with the one frame of a list within its limits, returns that list and stops at the end of the frame. |
| `HelperFrame.RoundTripExactly` | crates/avault-cli/src/main.rs:830-854 | A list passes through writer and reader, unchanged and to the end of its frame, if and only if it is within the reader's limits; no other condition. |
| `HelperFrame.WriterAcceptsLimits` | crates/avault-cli/src/main.rs:830-854 | The writer refuses nothing the reader would accept. |
| `HelperFrame.FirstError` | crates/avault-cli/src/main.rs:847-852 | The writer has nothing to report if and only if every secret passes its checks. |
| `HelperFrame.HelperPipe.WriteHelperBytes` | crates/avault-cli/src/main.rs:857-868 | A field that fits is written with its length in front; one that does not is refused before anything of it is written. |
| `HelperFrame.HelperPipe.WriteSecret` | crates/avault-cli/src/main.rs:847-852 | Checks the name, then the value, then writes both. |
| `HelperFrame.HelperPipe.WriteHelperFrame` | crates/avault-cli/src/main.rs:830-854 | Writes the whole frame of the list, or reports the first error. |
| `HelperFrame.HelperPipe.ReadExact` | crates/avault-cli/src/main.rs:873-875 | Everything asked for, or an error. |
| `HelperFrame.HelperPipe.ReadHelperU32` | crates/avault-cli/src/main.rs:911-917 | Reads a big-endian number. |
| `HelperFrame.HelperPipe.ReadHelperSecret` | crates/avault-cli/src/main.rs:885-905 | Reads and checks one name and one value, in the order and with the errors of the specification. |
| `HelperFrame.HelperPipe.ReadHelperFrame` | crates/avault-cli/src/main.rs:871-908 | Reads the frame from the pipe as specified. |
| `BlindBox.ReachableExactly` | crates/avault-core/src/blind_box.rs:61-118 | The contexts that constructors and builders can make are exactly those whose optional fields follow from the purpose and whose nonce comes with its expiry. |
| `BlindBox.AadInjective` | crates/avault-core/src/blind_box.rs:140-175 | Contexts that can be made have the same additional data if and only if they are equal: absent and empty fields never confuse two operations. |
| `BlindBox.UnreachableCollide` | crates/avault-core/src/blind_box.rs:140-175 | Without the constructors that would fail: an absent grant id reads like an empty one. |
| `BlindBox.OperationsAgree` | crates/avault-cli/src/main.rs:508-522 | Two grants share an operation-hash pre-image if and only if purpose, bound fields and TTL all agree. |
| `BlindBox.OpensExactly` | crates/avault-core/src/blind_box.rs:249-271 | With an ideal HPKE a box opens for the operation it was sealed for and for no other. |
| `BlindBox.ReleaseBound` | crates/avault-cli/src/main.rs:2903-2949 | With a hash that tells the two operations apart, a key box released by one approval opens for another if and only if grant, name, scheme, digest, nonce, expiry and TTL are all the same. |
| `BlindBox.PushAadField` | crates/avault-core/src/blind_box.rs:182-186 | Appends the length and the value. |
| `BlindBox.AadBytes` | crates/avault-core/src/blind_box.rs:140-175 | The pushes build exactly the specified additional data. |
| `BlindBox.HashInput` | crates/avault-core/src/blind_box.rs:121-129 | The loop feeds the hasher exactly the length-prefixed fields. |
| `Envelope.AadInjective` | crates/avault-core/src/lib.rs:347-353 | The first kind of additional data determines the name. |
| `Envelope.KindsApart` | crates/avault-core/src/lib.rs:347-373 | Neither kind is empty, and no record's first kind is any record's second. |
| `Envelope.ProtectedAadInjective` | crates/avault-core/src/lib.rs:355-377 | The second kind determines name, record kind, lower-cased public key, scheme and version, through JSON escaping, and nothing more. |
| `Envelope.SealedOpensExactly` | crates/avault-core/src/lib.rs:107-164 | A sealed value opens under its own master key and name and under no others, despite the empty fallback. |
| `Envelope.OpensExactly` | crates/avault-core/src/lib.rs:282-296 | The fallback lets through exactly the values encrypted without additional data. |
| `Envelope.ProtectedOpensExactly` | crates/avault-core/src/lib.rs:298-314 | The protected path opens exactly the values bound to this name in either kind, and none without additional data. |
| `Envelope.ProtectedBound` | crates/avault-core/src/lib.rs:171-184 | A value encrypted for a protected record opens if and only if the name, the record kind and the lower-cased public key are the same. |
| `Envelope.ProtectedNotStandard` | crates/avault-core/src/lib.rs:140-164 | A protected value does not open through the standard path under any name. |
| `Envelope.BuildAad` | crates/avault-core/src/lib.rs:347-353 | The pushes build the first kind. |
| `PrimeGroup.EvenScalarIs` | crates/avault-core/src/signing.rs:194-199 | Normalising a scalar gives the even point of its pair, still a scalar in range. |
| `Taproot.MaterialExactly` | crates/avault-core/src/signing.rs:189-246 | There is key material if and only if the key is in range, the tweak is in range and the sum is not zero; then `output_x` is the coordinate of BIP 341's output point and of the tweaked secret's, for both parities of the key's point. |
| `Taproot.NeverInfinity` | crates/avault-core/src/signing.rs:224-226 | The point at infinity is never reached: the check for a zero sum already excludes it. |
| `Taproot.NegativeSameMaterial` | crates/avault-core/src/signing.rs:189-203 | A key and its negative give the same material. |
| `Taproot.SignatureVerifies` | crates/avault-core/src/signing.rs:131-145 | A signature by BIP 340's "Default Signing" passes "Verification" under the x-only key of the signing key. |
| `Taproot.KeypathSignsExactly` | crates/avault-core/src/signing.rs:157-175 | Key-path signing succeeds if and only if there is material and BIP 340's nonce for the tweaked secret is not zero modulo the order; the self-check never fails, and the signature verifies under the Taproot output key. |

## Left out

- Sockets, framing of agent requests, process spawning, HTTP and the capped stream readers: an operation starts when its request has been parsed.
- AES-GCM, HPKE, scrypt, SHA-256 and secp256k1 arithmetic: an ideal AEAD, an ideal HPKE, arbitrary hashes and an abstract group stand for them.
- TPM, Keychain and file system calls: each is an outcome chosen freely (success, not found, already there, unavailable, another error); a file is installed by one atomic step, and a failure after it is an outcome of its own.
- The classification of TPM and Keychain errors by message text: classes are given. The class "not found" of a file counts as "TPM unavailable", because the text match of the source includes it.
- Page locking, zeroizing and file modes: a page is zeroized when its last handle is dropped, which is counted; memory itself is not modelled.
- Wall-clock steps: `expires_at_unix` is a fixed instant on the scale of the monotone clock.
- Overflow of clock arithmetic (`checked_add`), poisoned locks and admission of connections.
- The agent with a passphrase-unlocked master: covered by the configuration without a store, whose requests never enter the cache.
- A clock that runs backwards at the authorization gate: theorems about windows assume a monotone one, and `GateWindows.OneWindowAtMost` also that times stay clear of the largest 64-bit number.
- Forced imports in the runs of `KeyStoreConsensus`, and consensus of concurrent callers of the Linux `auto` policy, which the source does not promise.
- The polling interval and bound of the gate's wait: a waiting caller may try or give up at any moment.
- Parsing of the imported blob by `serde_json`, base64 and nonce lengths in envelopes, and JSON encoding of stored metadata: fields are held decoded, and metadata that does not parse is one error.
- URL normalisation by the `url` crate: whether it accepts a URL is a parameter, and queries are read from the text.
- I/O errors of the helper pipe other than running out of input.
- Error messages: errors are the cases a caller can tell apart, and messages for one cause share a case.
- The split of one function of the source into several methods (in `JsonScanner`, `FetchBody`, `HelperPipe`) has no counterpart there; it keeps each proof small.
- Vectors passed as `&mut` to `push_aad_field`, `write_shell_quoted` and the JSON writer: methods take the contents and return the longer ones, so aliasing of the buffer is not captured.
- Argument parsing, fetch allow-lists and header checks, ECDSA schemes, exit codes and scripts.
