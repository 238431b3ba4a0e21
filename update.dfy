/** The process-wide server list and the two periodic jobs that change it in place:
    fetchBanLists (update.go:16-148) and updateServerList (update.go:151-230). The writes
    to disk are counted by ghost fields instead of being performed. */
module Update {
  import opened BanTypes
  import opened BanMerge
  import opened Registry

  /** A peer the ban fetch leaves alone this cycle: our own entry, an unsubscribed peer,
      or a fetch that reported an error. (An empty payload is left alone by PeerBans.) */
  predicate Skipped(server: ServerEntry, ownName: string, response: FetchResult) {
    server.name == ownName || !server.subscribed || response.failed
  }

  /** One peer after the ban fetch. */
  function PeerAfterFetch(server: ServerEntry, ownName: string, response: FetchResult,
                          decodeNames: NameDecoder, decodeBans: BanDecoder, now: string): ServerEntry
  {
    if Skipped(server, ownName, response) then server
    else server.(banList := PeerBans(server.banList, response.data, decodeNames, decodeBans, now))
  }

  /** Bans one peer gained this cycle. */
  function PeerGain(server: ServerEntry, ownName: string, response: FetchResult,
                    decodeNames: NameDecoder, decodeBans: BanDecoder, now: string): nat
  {
    if Skipped(server, ownName, response) then 0
    else PeerAppends(server.banList, response.data, decodeNames, decodeBans, now)
  }

  /** gDirty after the first `n` peers. */
  function CycleGain(servers: seq<ServerEntry>, ownName: string, responses: seq<FetchResult>,
                     decodeNames: NameDecoder, decodeBans: BanDecoder, now: string, n: nat): nat
    requires n <= |servers| == |responses|
  {
    if n == 0 then
      0
    else
      CycleGain(servers, ownName, responses, decodeNames, decodeBans, now, n - 1)
      + PeerGain(servers[n - 1], ownName, responses[n - 1], decodeNames, decodeBans, now)
  }

  /** A peer's gain is exactly how much its ban list grew. */
  lemma PeerGainIsGrowth(server: ServerEntry, ownName: string, response: FetchResult,
                         decodeNames: NameDecoder, decodeBans: BanDecoder, now: string)
    ensures |PeerAfterFetch(server, ownName, response, decodeNames, decodeBans, now).banList|
      == |server.banList| + PeerGain(server, ownName, response, decodeNames, decodeBans, now)
  {
    PeerBansOnlyAppends(server.banList, response.data, decodeNames, decodeBans, now);
  }

  /** The cycle's count is positive exactly when some peer gained a ban. */
  lemma {:induction false} CycleGainPositive(servers: seq<ServerEntry>, ownName: string, responses: seq<FetchResult>,
                                             decodeNames: NameDecoder, decodeBans: BanDecoder, now: string, n: nat)
    requires n <= |servers| == |responses|
    ensures CycleGain(servers, ownName, responses, decodeNames, decodeBans, now, n) > 0 <==>
      exists k :: 0 <= k < n && PeerGain(servers[k], ownName, responses[k], decodeNames, decodeBans, now) > 0
  {
    if n > 0 {
      CycleGainPositive(servers, ownName, responses, decodeNames, decodeBans, now, n - 1);
    }
  }

  /** The ban lists are saved exactly when some peer's list grew this cycle; peers whose
      entries were only reinstated do not cause a save. */
  lemma SaveIffSomeListGrew(servers: seq<ServerEntry>, ownName: string, responses: seq<FetchResult>,
                            decodeNames: NameDecoder, decodeBans: BanDecoder, now: string, n: nat)
    requires n <= |servers| == |responses|
    ensures CycleGain(servers, ownName, responses, decodeNames, decodeBans, now, n) > 0 <==>
      exists k :: 0 <= k < n && |PeerAfterFetch(servers[k], ownName, responses[k], decodeNames, decodeBans, now).banList| > |servers[k].banList|
  {
    CycleGainPositive(servers, ownName, responses, decodeNames, decodeBans, now, n);
    forall k | 0 <= k < n
      ensures PeerGain(servers[k], ownName, responses[k], decodeNames, decodeBans, now) > 0 <==>
        |PeerAfterFetch(servers[k], ownName, responses[k], decodeNames, decodeBans, now).banList| > |servers[k].banList|
    {
      PeerGainIsGrowth(servers[k], ownName, responses[k], decodeNames, decodeBans, now);
    }
  }

  /** The five field comparisons of update.go:184-203 on one matching entry: the entry
      takes the remote's bans, discord, website, logs and jsonGzip, and the flag says
      whether any of them differed. */
  method RefreshEntry(e0: ServerEntry, server: ServerEntry) returns (e: ServerEntry, changed: bool)
    ensures e == Refresh(e0, server)
    ensures changed == !InSync(e0, server)
  {
    e, changed := e0, false;
    if e.bans != server.bans {
      e := e.(bans := server.bans);
      changed := true;
    }
    if e.discord != server.discord {
      e := e.(discord := server.discord);
      changed := true;
    }
    if e.website != server.website {
      e := e.(website := server.website);
      changed := true;
    }
    if e.logs != server.logs {
      e := e.(logs := server.logs);
      changed := true;
    }
    if e.jsonGzip != server.jsonGzip {
      e := e.(jsonGzip := server.jsonGzip);
      changed := true;
    }
  }

  /** serverList: the registry with each peer's ban list. */
  class ServerList {
    var servers: seq<ServerEntry>
    ghost var banListSaves: nat      // calls of saveBanLists
    ghost var serverListWrites: nat  // calls of writeServerListFile

    constructor (servers: seq<ServerEntry>)
      ensures this.servers == servers && banListSaves == 0 && serverListWrites == 0
    {
      this.servers := servers;
      banListSaves, serverListWrites := 0, 0;
    }

    /** One ban-fetch cycle. `responses[i]` is what fetching peer i's ban URL returns this
        cycle; it is only looked at when the peer is fetched. */
    method FetchBanLists(ownName: string, responses: seq<FetchResult>,
                         decodeNames: NameDecoder, decodeBans: BanDecoder, now: string)
      requires |responses| == |servers|
      modifies this
      ensures |servers| == |old(servers)|
      ensures forall i :: 0 <= i < |servers| ==>
        servers[i] == PeerAfterFetch(old(servers)[i], ownName, responses[i], decodeNames, decodeBans, now)
      ensures banListSaves == old(banListSaves)
        + (if CycleGain(old(servers), ownName, responses, decodeNames, decodeBans, now, |servers|) > 0 then 1 else 0)
      ensures serverListWrites == old(serverListWrites)
    {
      var gDirty := 0;
      ghost var start := servers;
      for spos := 0 to |servers|
        invariant |servers| == |start| == |responses|
        invariant forall i :: 0 <= i < spos ==> servers[i] == PeerAfterFetch(start[i], ownName, responses[i], decodeNames, decodeBans, now)
        invariant forall i :: spos <= i < |servers| ==> servers[i] == start[i]
        invariant gDirty == CycleGain(start, ownName, responses, decodeNames, decodeBans, now, spos)
        invariant banListSaves == old(banListSaves) && serverListWrites == old(serverListWrites)
      {
        var lDirty := FetchPeer(spos, ownName, responses[spos], decodeNames, decodeBans, now);
        gDirty := gDirty + lDirty;
      }
      if gDirty > 0 {
        banListSaves := banListSaves + 1;
      }
    }

    /** The body of the ban-fetch loop for the peer at `spos` (update.go:19-143); the
        result is the peer's lDirty. */
    method FetchPeer(spos: nat, ownName: string, response: FetchResult,
                     decodeNames: NameDecoder, decodeBans: BanDecoder, now: string) returns (lDirty: nat)
      requires spos < |servers|
      modifies this
      ensures servers == old(servers)[spos := PeerAfterFetch(old(servers)[spos], ownName, response, decodeNames, decodeBans, now)]
      ensures lDirty == PeerGain(old(servers)[spos], ownName, response, decodeNames, decodeBans, now)
      ensures banListSaves == old(banListSaves) && serverListWrites == old(serverListWrites)
    {
      lDirty := 0;
      var server := servers[spos];
      if server.name == ownName {
        return;
      }
      if server.subscribed {
        if response.failed {
          return;
        }
        var list, added, revoked := MergePeer(server.banList, response.data, decodeNames, decodeBans, now);
        lDirty := added;
        servers := servers[spos := server.(banList := list)];
      }
    }

    /** The inner loop of the registry sync (update.go:179-206): every entry called
        `server.name` takes the remote's bans, discord, website, logs and jsonGzip. */
    method RefreshMatching(server: ServerEntry) returns (foundl: bool, changed: bool)
      modifies this
      ensures servers == RefreshAll(old(servers), server)
      ensures foundl == Listed(old(servers), server.name)
      ensures changed == AnyOutOfSync(old(servers), server)
      ensures banListSaves == old(banListSaves) && serverListWrites == old(serverListWrites)
    {
      foundl, changed := false, false;
      ghost var before := servers;
      for ipos := 0 to |servers|
        invariant |servers| == |before|
        invariant forall i :: 0 <= i < |servers| ==>
          servers[i] == if i < ipos && before[i].name == server.name then Refresh(before[i], server) else before[i]
        invariant foundl == exists k :: 0 <= k < ipos && before[k].name == server.name
        invariant changed == exists k :: 0 <= k < ipos && before[k].name == server.name && !InSync(before[k], server)
        invariant banListSaves == old(banListSaves) && serverListWrites == old(serverListWrites)
      {
        if servers[ipos].name == server.name {
          foundl := true;
          var e, c := RefreshEntry(servers[ipos], server);
          changed := changed || c;
          servers := servers[ipos := e];
        }
      }
    }

    /** One registry sync against the directory payload `response`. A fetch error is only
        logged: whatever data came back is still used (update.go:155-161). */
    method UpdateServerList(response: FetchResult, decodeList: string -> Option<seq<ServerEntry>>,
                            autoSubscribe: bool, now: string)
      modifies this
      ensures banListSaves == old(banListSaves)
      ensures Aborts(response.data, decodeList) ==>
        servers == old(servers) && serverListWrites == old(serverListWrites)
      ensures !Aborts(response.data, decodeList) ==>
        var o := MergeDirectory(old(servers), decodeList(response.data).value, autoSubscribe, now);
        servers == o.servers && serverListWrites == old(serverListWrites) + o.additions + (if o.updated then 1 else 0)
    {
      var data := response.data;
      if |data| > 0 {
        if Contains(ToLowerAscii(data), "404: not found") {
          return;
        }
        match decodeList(data) {
          case None =>
          case Some(remote) =>
            var updated := false;
            ghost var additions: nat := 0;
            for j := 0 to |remote|
              invariant var rest := MergeDirectory(servers, remote[j..], autoSubscribe, now);
                MergeDirectory(old(servers), remote, autoSubscribe, now)
                  == Outcome(rest.servers, updated || rest.updated, additions + rest.additions)
              invariant serverListWrites == old(serverListWrites) + additions
              invariant banListSaves == old(banListSaves)
            {
              var server := remote[j];
              assert remote[j..][0] == server && remote[j..][1..] == remote[j + 1..];
              ghost var step := ApplyDescriptor(servers, server, autoSubscribe, now);
              ghost var wasUpdated := updated;
              if server.name != "" && server.bans != "" {
                var foundl, changed := RefreshMatching(server);
                updated := updated || changed;
                if !foundl {
                  servers := servers + [server.(subscribed := autoSubscribe, added := now, banList := [])];
                  updated := true;
                  additions := additions + 1;
                  serverListWrites := serverListWrites + 1;
                }
              }
              assert servers == step.servers && updated == (wasUpdated || step.updated);
            }
            assert remote[|remote|..] == [];
            if updated {
              serverListWrites := serverListWrites + 1;
            }
        }
      }
    }
  }
}
