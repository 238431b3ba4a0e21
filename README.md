# FactBanSync ban-list synchronisation, modelled in Dafny

FactBanSync lets Factorio server operators share ban lists. Each server publishes its
ban list. A registry (the "server list") names every participating server and says
where its bans can be fetched. This project models the core of that exchange:

- **fetchBanLists** (`update.go`) visits every subscribed peer except this server. It
  downloads the peer's ban file and merges it into the stored copy in three passes:
  - a pass over a plain array of names;
  - a pass over an array of ban objects, retried once with the outer brackets removed
    when the payload looks nested;
  - a pass that marks missing bans as revoked, with a log heuristic that goes quiet when
    more than a tenth of a large list disappears.

  The ban lists are saved when any peer gained bans.
- **updateServerList** (`update.go`) fetches the registry and refuses anything that
  reads as a 404 page. For each remote entry with a name and a ban-list URL, it
  refreshes five fields of every local entry with that name, or else appends the entry
  as new. New entries are subscribed according to the auto-subscribe setting and
  stamped with the current time. The registry file is written once per added entry and
  once more at the end when anything changed.
- **watchBanFile** (`update.go`) polls the local Factorio ban file. When the file's size
  or modification time differs from the remembered stat, it reloads the ban list,
  rebuilds the web cache and the composite list, and then re-stats the file.
- **readServerBanList** (`FactBanSync/json.go`) reads the local ban file. It decodes the
  same text twice, once as an array of names and once as an array of ban objects, and
  concatenates what each decoding kept. Names must be non-empty, objects must be named,
  and the placeholder address `0.0.0.0` is cleared. The result replaces the in-memory ban
  data. With Go's decoder, one file never yields named records from both decodings: a
  string element becomes an unnamed object, and an object element makes the name
  decoding fail. It is the model's abstract decoders that also allow both to succeed.
- **FileNameFilter** (`FactBanSync/json.go`) deletes every character outside
  `a-zA-Z0-9-_`.

Modules:

- `BanTypes` (`ban_types.dfy`): ban records, server entries, fetch results, and the
  decoder types.
- `BanMerge` (`ban_merge.dfy`): the three per-peer passes. Each is a method proved
  against a specification function, plus lemmas about those functions.
- `Registry` (`registry.dfy`): the registry merge as a left fold over the remote
  entries, with its invariants and its idempotence.
- `Update` (`update.dfy`): the class `ServerList`, which holds the process-wide server
  list and runs the two periodic jobs in place. Ghost counters record the writes to disk.
- `Watch` (`watch.dfy`): one tick of the file watcher, the class that holds the
  remembered stat, and lemmas over runs of ticks.
- `LocalBanFile` (`local_ban_file.dfy`): the local ban file reader and the file-name
  filter.

The model reproduces the code as written, including its quirks:

- **Name pass.** The flag `found` (update.go:43) is not reset between names. Once one
  name is already stored, no later name is appended (`BanMerge.FreshNamesStopAtKnown`).
- **Object pass.** A stored match only counts when the fresh record is unrevoked
  (update.go:92). A revoked fresh object is therefore appended again, even when its name
  is stored.
- **Dead code.** update.go:93-96 cannot run, because line 92 has just required the
  record to be unrevoked. The model marks that branch unreachable and proves it.
- **Revocation pass.** It compares the pre-fetch list with that same list
  (update.go:25, 113-120), so it never revokes anything and its count is always 0. The
  pass is modelled for any comparison list, and `BanMerge.AsWiredNothingRevoked` states
  the as-wired fact.
- **Fetch errors.** A fetch error skips the peer in fetchBanLists (update.go:28-31). In
  updateServerList it is only logged (update.go:156-158), and whatever data arrived is
  still used.
- **Watcher.** When no stat is remembered, the tick takes two stats (update.go:279 and
  288). So the first tick signals a change exactly when the file changed between those
  two calls. One might expect the first tick never to signal, but the code allows it,
  and the model follows the code (`Watch.FirstTickSignalsOnlyOnRace`).
- **Registry writes.** The registry file is written once per added entry and once more
  at the end, not once per sync.

## Model

| member | source | states |
|---|---|---|
| BanMerge.ReinstateName | update.go:47-57 | A scan of the pre-fetch list for one name changes only the entries at that name whose pre-fetch copy is revoked: they become unrevoked and are stamped with now. The current list keeps its length, and the match flag is set iff the name was stored. |
| BanMerge.StringPass | update.go:42-65 | The name pass leaves the current list reinstated, followed by one fresh unrevoked record, stamped now, for each name FreshNames selects. The count it returns is the number of records appended. |
| BanMerge.RequestedAppend | update.go:45-48 | One more name in the array asks for exactly that name in addition, and asks for nothing when it is empty. |
| BanMerge.NameStep | update.go:45-62 | One more name is appended only while no earlier name was known, and only when it is non-empty and not stored. Afterwards `found` is set iff it was set before, or the name is non-empty and stored. |
| BanMerge.ReinstatedStep | update.go:47-54 | One non-empty name's scan extends the reinstatement to that name and leaves the appended tail alone. |
| BanMerge.ReinstatedSkipsEmpty | update.go:46 | An empty name reinstates nothing. |
| BanMerge.FreshNamesConcat | update.go:43-64 | Appending names distributes over concatenation: once a known name is in the first part, the second part adds nothing. |
| BanMerge.FreshNamesAreNew | update.go:46-61 | Every appended name is non-empty, comes from the payload, and was not stored before the fetch. |
| BanMerge.FreshNamesWhenAllUnseen | update.go:44-62 | When no payload name is stored, every non-empty name is appended in order, so the count is the payload length minus its empty names. |
| BanMerge.FreshNamesStopAtKnown | update.go:43-62 | Since `found` is never reset, names after the first stored one are never appended. |
| BanMerge.AppendsObjectIff | update.go:89-100 | A fresh object is appended iff it has a name and either is revoked or names no stored ban. |
| BanMerge.ObjectAdditionsConcat | update.go:88-106 | The object pass's additions distribute over concatenation of the payload. |
| BanMerge.ObjectAdditionsMembers | update.go:88-104 | A record is appended iff it is built (name and reason, unrevoked, stamped now) from a payload object that the pass appends. |
| BanMerge.ObjectPass | update.go:87-106 | The object pass only appends: the new list is the old list followed by ObjectAdditions, and the count is their number. The reinstatement branch at 93-96 is proved unreachable. |
| BanMerge.StripOuterBrackets | update.go:77-79 | At most one trailing `]` and one leading `[` are removed. A payload wrapped in both loses exactly that pair, and a payload with neither is returned unchanged. |
| BanMerge.StripUnwrapsOnePair | update.go:76-81 | `[` + x + `]` is stripped back to exactly x. |
| BanMerge.DecodedBans | update.go:68-85 | A first decoding with more than one record is used as is, and so is every decoding of an empty payload. Otherwise the bracket-stripped payload is decoded again: a successful retry's records replace the first decoding, and a failed retry keeps it. |
| BanMerge.NestedRecordRecovered | update.go:75-85 | When a payload is text that decodes to one record, wrapped in an extra pair of brackets, and the payload itself decodes to at most one record, the result is exactly that inner record. |
| BanMerge.CandidatesConcat | update.go:113-133 | The revocation candidates of a concatenation are the candidates of each part, in order. |
| BanMerge.CandidatesMembers | update.go:113-121 | A name is a candidate iff it belongs to a pre-fetch entry whose name is absent from the comparison list. |
| BanMerge.RevocationPass | update.go:108-133 | The new list has every candidate revoked at its own index. The count equals the number of candidates. The logged names are a prefix of the candidates: all of them, or only the first tenth once more than a tenth of a list longer than 30 went missing. The silenced flag is set exactly in that case. |
| BanMerge.NoCandidatesWhenAllPresent | update.go:113-121 | When every old name is present in the comparison list, there are no candidates. |
| BanMerge.AsWiredNothingRevoked | update.go:25-120 | Comparing the pre-fetch list with itself, as the code does, yields no candidates and leaves the list unchanged. |
| BanMerge.MergePeer | update.go:32-134 | Merging one delivered payload yields PeerBans. The count is PeerAppends, and the revoked count is always 0. |
| BanMerge.AfterNamesShape | update.go:34-66 | After the name pass, the stored entries keep their place and change only by reinstatement. Each added record is named, unrevoked and stamped now. |
| BanMerge.PeerBansOnlyAppends | update.go:32-134 | Nothing is ever removed or revoked across a fetch. The list grows by exactly the appended count. Each stored entry is unchanged or reinstated by a payload name. Each tail record is named, unrevoked and stamped now. |
| Update.PeerGainIsGrowth | update.go:22-103 | The per-peer dirty count is exactly how much that peer's ban list grew. |
| Update.CycleGainPositive | update.go:59-61 | gDirty is positive iff some peer's own count (lDirty) is positive. |
| Update.SaveIffSomeListGrew | update.go:145-147 | The cycle's dirty count is positive iff some peer's list grew. Reinstatements alone do not cause a save. |
| Update.ServerList.FetchBanLists | update.go:16-148 | Every peer ends as PeerAfterFetch describes: this server, unsubscribed peers and failed fetches are left alone, and every other peer is merged. The ban lists are saved once iff the cycle gained bans. The registry file is not written. |
| Update.ServerList.RefreshMatching | update.go:179-206 | Every local entry named like the remote takes its bans, discord, website, logs and jsonGzip, and nothing else changes. The found flag is set iff such an entry exists, and the changed flag iff one of them was out of sync. |
| Update.RefreshEntry | update.go:184-203 | A matching entry takes the remote's bans, discord, website, logs and jsonGzip, and the change flag is set iff one of them differed. |
| Update.ServerList.FetchPeer | update.go:19-143 | One peer gets exactly its PeerAfterFetch result, and the other peers are untouched. lDirty is the peer's gain, and nothing is written to disk. |
| Update.ServerList.UpdateServerList | update.go:151-230 | An empty, 404-looking or undecodable payload leaves the registry and its file alone. Otherwise the registry becomes MergeDirectory of the decoded entries, with one write per addition plus one if anything changed. Ban lists are not saved. |
| Registry.MergeKeepsLocal | update.go:176-221 | No entry is removed. A known entry keeps its name, subscription, date, trusts and ban list. Each appended entry is named after a usable remote entry, subscribed as configured, stamped now and has no bans. |
| Registry.MergeKeepsNamesUnique | update.go:179-216 | Unique local names stay unique, even when the remote list repeats a name. |
| Registry.ApplyReflects | update.go:178-220 | After one usable remote entry, the list holds its name and every entry of that name agrees with it on the five refreshed fields. |
| Registry.ApplyPreservesReflects | update.go:178-220 | A remote entry for another name does not disturb an entry that already agrees. |
| Registry.MergePreservesReflects | update.go:176-222 | A whole merge without that name keeps an agreeing entry agreeing. |
| Registry.MergeReflectsRemote | update.go:176-222 | When usable remote names are unique, every usable remote entry is reflected in the merged list. |
| Registry.MergeWhenReflected | update.go:176-225 | A merge whose every usable entry is already reflected changes nothing and reports no update. |
| Registry.MergeIdempotent | update.go:176-225 | Syncing the same payload a second time changes nothing, reports no update and writes nothing, provided usable remote names are unique. |
| Registry.NotUpdatedMeansUnchanged | update.go:174-225 | When no update is reported, the list is unchanged and nothing was added. |
| Registry.ContainsLowered | update.go:165-166 | A substring match survives ASCII lower-casing of both the payload and the marker. |
| Registry.ContainsInfix | update.go:166 | A marker placed anywhere in the payload is found. |
| Registry.Mentions404AnyCase | update.go:164-169 | The 404 guard fires on any payload containing any spelling of the marker that lower-cases to "404: not found". |
| Registry.Mentions404Pages | update.go:164-169 | Payloads containing "404: Not Found" or "404: NOT FOUND", with any text around them, are refused. |
| Watch.Poll | update.go:273-311 | A tick signals iff there is a baseline (the remembered stat, or else a successful first stat) and a successful restat differs from it in size or modification time. A signal runs the three callbacks in order and makes the stat after the change the new baseline, or unsets it when that stat failed. Otherwise the baseline is the old one, or the first stat when there was none. |
| Watch.SteadyFileIsQuiet | update.go:287-309 | An unchanged file never signals, whether or not a baseline was set. |
| Watch.OneChangeOneSignal | update.go:295-302 | One change between ticks is signalled exactly once, however many ticks follow. |
| Watch.FirstTickSignalsOnlyOnRace | update.go:278-295 | Without a baseline, a tick signals iff the file changed between its two stats. |
| Watch.BanFileWatcher.WatchBanFile | update.go:273-311 | The method runs exactly one Poll step on the remembered stat and returns its events. |
| BanTypes.NonEmptyNamesConcat | update.go:45-46 | Filtering out empty names distributes over concatenation. |
| BanTypes.NonEmptyNamesCount | update.go:45-46 | Filtering out empty names drops exactly the empty names. |
| BanTypes.NonEmptyNamesMembers | update.go:45-46 | A name survives filtering iff it is non-empty and in the array. |
| LocalBanFile.NameRecordsCount | FactBanSync/json.go:116-120 | The name array yields one record per non-empty name: its length minus its empty names. |
| LocalBanFile.NameRecordsMembers | FactBanSync/json.go:116-120 | A record is kept iff it holds only a non-empty name of the array. |
| LocalBanFile.ObjectRecordsCount | FactBanSync/json.go:130-138 | The object array yields one record per named object: its length minus the unnamed objects. |
| LocalBanFile.ObjectRecordsMembers | FactBanSync/json.go:130-138 | A record is kept iff it is a named object of the array, unchanged except that the placeholder address is cleared. |
| LocalBanFile.ObjectRecordsClean | FactBanSync/json.go:130-138 | No kept record is unnamed or has the placeholder address. |
| LocalBanFile.NormaliseBanFile | FactBanSync/json.go:99-138 | The loops build the name records followed by the object records. |
| LocalBanFile.LocalBans.ReadServerBanList | FactBanSync/json.go:90-143 | An unopenable file leaves the ban data alone. Otherwise the ban data becomes the normalised records of both decodings. |
| LocalBanFile.FileNameFilter | FactBanSync/json.go:246-250 | Only `a-zA-Z0-9-_` remain, the result is no longer than the input, and an input already made of those characters is returned unchanged. |
| LocalBanFile.FileNameFilterIsSubsequence | FactBanSync/json.go:246-250 | The result is an in-order subsequence of the input. |
| LocalBanFile.FileNameFilterKeepsAllowed | FactBanSync/json.go:246-250 | Every allowed character keeps its number of occurrences, and no other character occurs. |
| LocalBanFile.FileNameFilterIdempotent | FactBanSync/json.go:246-250 | Filtering twice is the same as filtering once. |

## Left out

- fetchFile (update.go:233-270) and HTTP. Each download is a parameter: the bytes
  delivered, plus whether an error was reported.
- JSON decoding. The decoders are function parameters that either fail or return the
  decoded sequence. A Go decode that fails halfway still leaves partly filled values;
  that case is not modelled. In banDataType, Reason and Reasons carry the same tag
  `"reason"` (FactBanSync/structs.go:61-66). Go's decoder therefore fills neither, so a
  real payload's reason never reaches the record appended at update.go:103. The model's
  abstract decoder does allow a reason to arrive.
- Log text. Only which revocations are logged, and the silencing, are modelled.
- The clock. Each call receives one timestamp string. The source formats a
  reinstatement's time with RFC 3339 (update.go:53) and new entries with `timeFormat`
  (update.go:61, 103, 215); the model does not keep that distinction.
- The file system. saveBanLists and writeServerListFile are counted in ghost fields,
  not performed. os.Stat results are parameters.
- readServerBanList's exit on a read error (FactBanSync/json.go:102-105). The model
  receives the file's text or None; a process exit is not modelled.
- compositeBans and updateWebCache, including gzip and the cache lock. The watcher
  reports them as events.
- The ban-record fields Sources, Reasons, Revokes and Adds
  (FactBanSync/structs.go:65-68). The merge builds appended records without them
  (update.go:61, 103). readServerBanList copies them through unchanged, because it
  appends the whole decoded item (FactBanSync/json.go:136). The model's BanRecord does
  not have them, so LocalBanFile.ObjectRecordsMembers' "unchanged except the address"
  covers only the fields the model keeps. Conversely, readServerBanList uses an Address
  field (FactBanSync/json.go:133) that the banDataType in FactBanSync/structs.go:58-69
  does not declare; the model keeps it, as json.go uses it.
- The registry Version. Every writeServerListFile call that updateServerList makes
  (update.go:219, 224) resets it to "0.0.1" (FactBanSync/json.go:226); the model does
  not keep a version.
- Go slice aliasing. Every scan reads the pre-fetch copy of a peer's list, and every
  write goes to the current list, as the range copy does in the source. Writes change only
  Revoked and Added. The one scan that tests Revoked (update.go:49) would write the same
  values again, so sharing the backing array does not change the outcome.
- Unicode lower-casing. Mentions404 lower-cases ASCII letters only. This detects
  "404: not found" exactly as strings.ToLower does, because no other character
  lower-cases to one of its letters.
- Logging and the scheduling of the periodic jobs. Concurrency is not modelled; each
  job runs to completion.
