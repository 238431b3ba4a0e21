/** The registry merge of updateServerList (update.go:160-225) as functions over the
    server list. Update.ServerList.UpdateServerList runs the same merge in place and is
    proved equal to MergeDirectory. */
module Registry {
  import opened BanTypes

  /** Whether some server of `servers` is called `name`. */
  predicate Listed(servers: seq<ServerEntry>, name: string) {
    exists i :: 0 <= i < |servers| && servers[i].name == name
  }

  /** Remote entries lacking a name or a ban-list URL are ignored (update.go:178). */
  predicate Usable(r: ServerEntry) {
    r.name != "" && r.bans != ""
  }

  /** The five fields a remote entry may overwrite agree. */
  predicate InSync(e: ServerEntry, r: ServerEntry) {
    e.bans == r.bans && e.discord == r.discord && e.website == r.website && e.logs == r.logs && e.jsonGzip == r.jsonGzip
  }

  /** A local entry after a matching remote entry: only bans, discord, website, logs and
      jsonGzip are taken from the remote; subscribed, added, trusts and the ban list stay. */
  function Refresh(e: ServerEntry, r: ServerEntry): ServerEntry {
    e.(bans := r.bans, discord := r.discord, website := r.website, logs := r.logs, jsonGzip := r.jsonGzip)
  }

  /** A remote entry adopted as new (update.go:208-216). Decoded entries never carry a
      ban list (the field is excluded from JSON), so the new entry's list is empty. */
  function Adopt(r: ServerEntry, autoSubscribe: bool, now: string): ServerEntry {
    r.(subscribed := autoSubscribe, added := now, banList := [])
  }

  function RefreshAll(servers: seq<ServerEntry>, r: ServerEntry): seq<ServerEntry> {
    seq(|servers|, i requires 0 <= i < |servers| => if servers[i].name == r.name then Refresh(servers[i], r) else servers[i])
  }

  predicate AnyOutOfSync(servers: seq<ServerEntry>, r: ServerEntry) {
    exists i :: 0 <= i < |servers| && servers[i].name == r.name && !InSync(servers[i], r)
  }

  /** The local list after some remote entries, whether any write-worthy change was seen
      (`updated`) and how many entries were appended. */
  datatype Outcome = Outcome(servers: seq<ServerEntry>, updated: bool, additions: nat)

  /** One pass of the outer loop: the inner loop reads the list as grown by every earlier
      remote entry. */
  function ApplyDescriptor(servers: seq<ServerEntry>, r: ServerEntry, autoSubscribe: bool, now: string): Outcome {
    if !Usable(r) then Outcome(servers, false, 0)
    else if Listed(servers, r.name) then Outcome(RefreshAll(servers, r), AnyOutOfSync(servers, r), 0)
    else Outcome(servers + [Adopt(r, autoSubscribe, now)], true, 1)
  }

  function MergeDirectory(servers: seq<ServerEntry>, remote: seq<ServerEntry>, autoSubscribe: bool, now: string): Outcome
    decreases |remote|
  {
    if remote == [] then Outcome(servers, false, 0)
    else
      var step := ApplyDescriptor(servers, remote[0], autoSubscribe, now);
      var rest := MergeDirectory(step.servers, remote[1..], autoSubscribe, now);
      Outcome(rest.servers, step.updated || rest.updated, step.additions + rest.additions)
  }

  // ---------------------------------------------------------------------------
  // The 404 guard (update.go:164-169)
  // ---------------------------------------------------------------------------

  /** strings.ToLower restricted to ASCII letters. */
  function ToLowerAscii(s: string): string {
    seq(|s|, i requires 0 <= i < |s| => if 'A' <= s[i] <= 'Z' then (s[i] as int + 32) as char else s[i])
  }

  predicate Contains(s: string, sub: string)
    decreases |s|
  {
    sub <= s || (|s| > 0 && Contains(s[1..], sub))
  }

  /** A payload that reads as a "404: not found" page, in any letter case, aborts the sync.
      Lower-casing ASCII letters is enough: no other character lower-cases to a letter of
      that marker. */
  predicate Mentions404(data: string) {
    Contains(ToLowerAscii(data), "404: not found")
  }

  /** A match survives lower-casing of both sides. */
  lemma {:induction false} ContainsLowered(s: string, sub: string)
    requires Contains(s, sub)
    ensures Contains(ToLowerAscii(s), ToLowerAscii(sub))
    decreases |s|
  {
    if sub <= s {
      assert ToLowerAscii(sub) == ToLowerAscii(s)[..|sub|];
    } else {
      assert ToLowerAscii(s)[1..] == ToLowerAscii(s[1..]);
      ContainsLowered(s[1..], sub);
    }
  }

  /** A marker anywhere in the payload is found. */
  lemma {:induction false} ContainsInfix(prefix: string, marker: string, suffix: string)
    ensures Contains(prefix + marker + suffix, marker)
    decreases |prefix|
  {
    if prefix == [] {
      assert prefix + marker + suffix == marker + suffix;
    } else {
      assert (prefix + marker + suffix)[1..] == prefix[1..] + marker + suffix;
      ContainsInfix(prefix[1..], marker, suffix);
    }
  }

  /** The guard fires on the marker in any letter case, wherever it occurs in the payload. */
  lemma Mentions404AnyCase(data: string, marker: string)
    requires ToLowerAscii(marker) == "404: not found"
    requires Contains(data, marker)
    ensures Mentions404(data)
  {
    ContainsLowered(data, marker);
  }

  /** The title-case and upper-case 404 texts are refused, whatever surrounds the marker. */
  lemma Mentions404Pages(prefix: string, suffix: string)
    ensures Mentions404(prefix + "404: Not Found" + suffix)
    ensures Mentions404(prefix + "404: NOT FOUND" + suffix)
  {
    ContainsInfix(prefix, "404: Not Found", suffix);
    ContainsInfix(prefix, "404: NOT FOUND", suffix);
    assert ToLowerAscii("404: Not Found") == "404: not found";
    assert ToLowerAscii("404: NOT FOUND") == "404: not found";
    Mentions404AnyCase(prefix + "404: Not Found" + suffix, "404: Not Found");
    Mentions404AnyCase(prefix + "404: NOT FOUND" + suffix, "404: NOT FOUND");
  }

  /** The sync leaves the registry alone: nothing fetched, a 404 page, or an undecodable
      payload. */
  predicate Aborts(data: string, decodeList: string -> Option<seq<ServerEntry>>) {
    |data| == 0 || Mentions404(data) || decodeList(data).None?
  }

  // ---------------------------------------------------------------------------
  // Properties of the merge
  // ---------------------------------------------------------------------------

  /** The fields of a local entry the merge never touches. */
  predicate KeepsLocalFields(e: ServerEntry, f: ServerEntry) {
    f.name == e.name && f.subscribed == e.subscribed && f.added == e.added && f.trusts == e.trusts && f.banList == e.banList
  }

  /** Nothing is removed; a known entry keeps its name, subscription, date, trusts and ban
      list; every appended entry is named after a usable remote entry, subscribed as the
      policy says, dated now and without bans. */
  lemma {:induction false} MergeKeepsLocal(servers: seq<ServerEntry>, remote: seq<ServerEntry>, autoSubscribe: bool, now: string)
    ensures var o := MergeDirectory(servers, remote, autoSubscribe, now);
      |o.servers| == |servers| + o.additions
      && (forall i :: 0 <= i < |servers| ==> KeepsLocalFields(servers[i], o.servers[i]))
      && (forall i :: |servers| <= i < |o.servers| ==>
            o.servers[i].subscribed == autoSubscribe && o.servers[i].added == now && o.servers[i].banList == []
            && exists k :: 0 <= k < |remote| && Usable(remote[k]) && remote[k].name == o.servers[i].name)
    decreases |remote|
  {
    if remote != [] {
      var step := ApplyDescriptor(servers, remote[0], autoSubscribe, now);
      MergeKeepsLocal(step.servers, remote[1..], autoSubscribe, now);
      var o := MergeDirectory(servers, remote, autoSubscribe, now);
      forall i | |servers| <= i < |o.servers|
        ensures o.servers[i].subscribed == autoSubscribe && o.servers[i].added == now && o.servers[i].banList == []
          && exists k :: 0 <= k < |remote| && Usable(remote[k]) && remote[k].name == o.servers[i].name
      {
        if i < |step.servers| {
          assert KeepsLocalFields(step.servers[i], o.servers[i]);
          assert step.servers[i] == Adopt(remote[0], autoSubscribe, now);
        } else {
          var k :| 0 <= k < |remote[1..]| && Usable(remote[1..][k]) && remote[1..][k].name == o.servers[i].name;
          assert remote[k + 1] == remote[1..][k];
        }
      }
    }
  }

  predicate UniqueNames(servers: seq<ServerEntry>) {
    forall i, j :: 0 <= i < j < |servers| ==> servers[i].name != servers[j].name
  }

  /** The merge never introduces a duplicate name, even when the remote list repeats one:
      an entry is appended only when the grown list lacks its name. */
  lemma {:induction false} MergeKeepsNamesUnique(servers: seq<ServerEntry>, remote: seq<ServerEntry>, autoSubscribe: bool, now: string)
    requires UniqueNames(servers)
    ensures UniqueNames(MergeDirectory(servers, remote, autoSubscribe, now).servers)
    decreases |remote|
  {
    if remote != [] {
      var step := ApplyDescriptor(servers, remote[0], autoSubscribe, now);
      assert UniqueNames(step.servers);
      MergeKeepsNamesUnique(step.servers, remote[1..], autoSubscribe, now);
    }
  }

  /** Every local entry called `r.name` agrees with `r`, and there is one. */
  predicate Reflects(servers: seq<ServerEntry>, r: ServerEntry) {
    Listed(servers, r.name) && forall i :: 0 <= i < |servers| && servers[i].name == r.name ==> InSync(servers[i], r)
  }

  predicate UniqueUsableNames(remote: seq<ServerEntry>) {
    forall i, j :: 0 <= i < j < |remote| && Usable(remote[i]) && Usable(remote[j]) ==> remote[i].name != remote[j].name
  }

  lemma ApplyReflects(servers: seq<ServerEntry>, r: ServerEntry, autoSubscribe: bool, now: string)
    requires Usable(r)
    ensures Reflects(ApplyDescriptor(servers, r, autoSubscribe, now).servers, r)
  {
    var s := ApplyDescriptor(servers, r, autoSubscribe, now).servers;
    if !Listed(servers, r.name) {
      assert s[|servers|].name == r.name;
    } else {
      var i :| 0 <= i < |servers| && servers[i].name == r.name;
      assert s[i].name == r.name;
    }
  }

  /** An entry for another name does not disturb what `r` left behind. */
  lemma ApplyPreservesReflects(servers: seq<ServerEntry>, s: ServerEntry, r: ServerEntry, autoSubscribe: bool, now: string)
    requires Reflects(servers, r)
    requires !Usable(s) || s.name != r.name
    ensures Reflects(ApplyDescriptor(servers, s, autoSubscribe, now).servers, r)
  {
    var after := ApplyDescriptor(servers, s, autoSubscribe, now).servers;
    var i :| 0 <= i < |servers| && servers[i].name == r.name;
    assert after[i].name == r.name;
  }

  lemma {:induction false} MergePreservesReflects(servers: seq<ServerEntry>, remote: seq<ServerEntry>, r: ServerEntry, autoSubscribe: bool, now: string)
    requires Reflects(servers, r)
    requires forall k :: 0 <= k < |remote| && Usable(remote[k]) ==> remote[k].name != r.name
    ensures Reflects(MergeDirectory(servers, remote, autoSubscribe, now).servers, r)
    decreases |remote|
  {
    if remote != [] {
      ApplyPreservesReflects(servers, remote[0], r, autoSubscribe, now);
      MergePreservesReflects(ApplyDescriptor(servers, remote[0], autoSubscribe, now).servers, remote[1..], r, autoSubscribe, now);
    }
  }

  /** When remote names are unique, every usable remote entry is reflected by the merged list. */
  lemma {:induction false} MergeReflectsRemote(servers: seq<ServerEntry>, remote: seq<ServerEntry>, autoSubscribe: bool, now: string)
    requires UniqueUsableNames(remote)
    ensures forall k :: 0 <= k < |remote| && Usable(remote[k]) ==>
      Reflects(MergeDirectory(servers, remote, autoSubscribe, now).servers, remote[k])
    decreases |remote|
  {
    if remote != [] {
      var step := ApplyDescriptor(servers, remote[0], autoSubscribe, now);
      assert UniqueUsableNames(remote[1..]) by {
        forall i, j | 0 <= i < j < |remote[1..]| && Usable(remote[1..][i]) && Usable(remote[1..][j])
          ensures remote[1..][i].name != remote[1..][j].name
        {
          assert remote[1..][i] == remote[i + 1] && remote[1..][j] == remote[j + 1];
        }
      }
      MergeReflectsRemote(step.servers, remote[1..], autoSubscribe, now);
      forall k | 0 <= k < |remote| && Usable(remote[k])
        ensures Reflects(MergeDirectory(servers, remote, autoSubscribe, now).servers, remote[k])
      {
        if k == 0 {
          ApplyReflects(servers, remote[0], autoSubscribe, now);
          forall m | 0 <= m < |remote[1..]| && Usable(remote[1..][m]) ensures remote[1..][m].name != remote[0].name {
            assert remote[1..][m] == remote[m + 1];
          }
          MergePreservesReflects(step.servers, remote[1..], remote[0], autoSubscribe, now);
        } else {
          assert remote[1..][k - 1] == remote[k];
        }
      }
    }
  }

  /** A merge whose every usable entry is already reflected changes nothing. */
  lemma {:induction false} MergeWhenReflected(servers: seq<ServerEntry>, remote: seq<ServerEntry>, autoSubscribe: bool, now: string)
    requires forall k :: 0 <= k < |remote| && Usable(remote[k]) ==> Reflects(servers, remote[k])
    ensures MergeDirectory(servers, remote, autoSubscribe, now) == Outcome(servers, false, 0)
    decreases |remote|
  {
    if remote != [] {
      var r := remote[0];
      if Usable(r) {
        assert Reflects(servers, r);
        assert RefreshAll(servers, r) == servers;
      }
      forall k | 0 <= k < |remote[1..]| && Usable(remote[1..][k]) ensures Reflects(servers, remote[1..][k]) {
        assert remote[1..][k] == remote[k + 1];
      }
      MergeWhenReflected(servers, remote[1..], autoSubscribe, now);
    }
  }

  /** Running the sync again on the same payload changes nothing, reports no update and
      so writes nothing, provided the usable remote names are unique. */
  lemma MergeIdempotent(servers: seq<ServerEntry>, remote: seq<ServerEntry>, autoSubscribe: bool, now: string, later: string)
    requires UniqueUsableNames(remote)
    ensures var first := MergeDirectory(servers, remote, autoSubscribe, now);
      MergeDirectory(first.servers, remote, autoSubscribe, later) == Outcome(first.servers, false, 0)
  {
    var first := MergeDirectory(servers, remote, autoSubscribe, now);
    MergeReflectsRemote(servers, remote, autoSubscribe, now);
    MergeWhenReflected(first.servers, remote, autoSubscribe, later);
  }

  /** `updated` is false only when the list came out unchanged, and every addition sets it. */
  lemma {:induction false} NotUpdatedMeansUnchanged(servers: seq<ServerEntry>, remote: seq<ServerEntry>, autoSubscribe: bool, now: string)
    ensures var o := MergeDirectory(servers, remote, autoSubscribe, now);
      (!o.updated ==> o.servers == servers && o.additions == 0)
    decreases |remote|
  {
    if remote != [] {
      var r := remote[0];
      var step := ApplyDescriptor(servers, r, autoSubscribe, now);
      if Usable(r) && Listed(servers, r.name) && !AnyOutOfSync(servers, r) {
        assert RefreshAll(servers, r) == servers;
      }
      NotUpdatedMeansUnchanged(step.servers, remote[1..], autoSubscribe, now);
    }
  }
}
