/** The per-peer merge of fetchBanLists (update.go:32-134): the name-array pass, the
    object-array pass with its bracket-stripping retry, and the revocation pass.
    Go's `range` copies the server record at the top of the peer loop, so every scan
    reads the peer's list as it was before the fetch (`snapshot` below) while every
    write goes to the current list. */
module BanMerge {
  import opened BanTypes

  // ---------------------------------------------------------------------------
  // Name-array pass (update.go:34-66)
  // ---------------------------------------------------------------------------

  /** A stored user name is asked for by a name array when it is one of its non-empty names. */
  predicate Requested(names: seq<string>, userName: string) {
    userName in NonEmptyNames(names)
  }

  /** One more name of the array asks for exactly that name, when it is non-empty. */
  lemma RequestedAppend(names: seq<string>, name: string)
    ensures forall u :: Requested(names + [name], u) <==> Requested(names, u) || (name != "" && u == name)
  {
    NonEmptyNamesConcat(names, [name]);
    assert NonEmptyNames([name]) == (if name == "" then [] else [name]) + NonEmptyNames([]);
  }

  /** The current list after reinstatement: an entry whose pre-fetch copy is revoked and
      whose name is asked for is un-revoked and re-stamped; nothing else changes. */
  function Reinstated(list: seq<BanRecord>, snapshot: seq<BanRecord>, names: seq<string>, now: string): seq<BanRecord>
    requires |snapshot| <= |list|
  {
    seq(|list|, i requires 0 <= i < |list| =>
      if i < |snapshot| && snapshot[i].revoked && Requested(names, snapshot[i].userName)
      then list[i].(revoked := false, added := now)
      else list[i])
  }

  /** Whether some non-empty name of `names` is already stored. */
  predicate AnyKnown(names: seq<string>, snapshot: seq<BanRecord>) {
    names != [] && ((names[0] != "" && HasName(snapshot, names[0])) || AnyKnown(names[1..], snapshot))
  }

  /** The names the pass appends. The flag `found` is set by the first stored name and
      never cleared (update.go:43), so appending stops for good at the first known name. */
  function FreshNames(names: seq<string>, snapshot: seq<BanRecord>): seq<string> {
    if names == [] then []
    else if names[0] == "" then FreshNames(names[1..], snapshot)
    else if HasName(snapshot, names[0]) then []
    else [names[0]] + FreshNames(names[1..], snapshot)
  }

  /** The records appended for names (update.go:61): empty reason, not revoked. */
  function NameBans(names: seq<string>, now: string): seq<BanRecord> {
    seq(|names|, i requires 0 <= i < |names| => NewBan(names[i], "", now))
  }

  lemma {:induction false} FreshNamesConcat(a: seq<string>, b: seq<string>, snapshot: seq<BanRecord>)
    ensures AnyKnown(a + b, snapshot) == (AnyKnown(a, snapshot) || AnyKnown(b, snapshot))
    ensures FreshNames(a + b, snapshot) ==
      if AnyKnown(a, snapshot) then FreshNames(a, snapshot)
      else FreshNames(a, snapshot) + FreshNames(b, snapshot)
  {
    if a == [] {
      assert a + b == b;
    } else {
      assert (a + b)[0] == a[0];
      assert (a + b)[1..] == a[1..] + b;
      FreshNamesConcat(a[1..], b, snapshot);
    }
  }

  /** What the name pass appends: only non-empty names that are not stored. */
  lemma {:induction false} FreshNamesAreNew(names: seq<string>, snapshot: seq<BanRecord>)
    ensures forall n :: n in FreshNames(names, snapshot) ==> n != "" && n in names && !HasName(snapshot, n)
  {
    if names != [] {
      FreshNamesAreNew(names[1..], snapshot);
    }
  }

  /** When no name is known, every non-empty name is appended, so the pass adds as many
      bans as there are non-empty names. */
  lemma {:induction false} FreshNamesWhenAllUnseen(names: seq<string>, snapshot: seq<BanRecord>)
    requires !AnyKnown(names, snapshot)
    ensures FreshNames(names, snapshot) == NonEmptyNames(names)
    ensures |FreshNames(names, snapshot)| == |names| - multiset(names)[""]
  {
    if names != [] {
      assert names == [names[0]] + names[1..];
      FreshNamesWhenAllUnseen(names[1..], snapshot);
    }
  }

  /** Because `found` is never reset, no name after the first known one is appended,
      however new it is. */
  lemma FreshNamesStopAtKnown(names: seq<string>, snapshot: seq<BanRecord>, j: nat)
    requires j < |names| && names[j] != "" && HasName(snapshot, names[j])
    ensures FreshNames(names, snapshot) == FreshNames(names[..j], snapshot)
  {
    assert names == names[..j] + names[j..];
    FreshNamesConcat(names[..j], names[j..], snapshot);
  }

  /** One name's scan of the pre-fetch list (update.go:47-57): every revoked entry of
      that name is reinstated in the current list, and the result says whether any
      entry has that name. */
  method ReinstateName(list0: seq<BanRecord>, snapshot: seq<BanRecord>, name: string, now: string)
    returns (list: seq<BanRecord>, matched: bool)
    requires |snapshot| <= |list0|
    ensures |list| == |list0|
    ensures forall i :: 0 <= i < |list| ==>
      list[i] == if i < |snapshot| && snapshot[i].userName == name && snapshot[i].revoked
                 then list0[i].(revoked := false, added := now) else list0[i]
    ensures matched == HasName(snapshot, name)
  {
    list, matched := list0, false;
    for ipos := 0 to |snapshot|
      invariant |list| == |list0|
      invariant forall i :: 0 <= i < |list| ==>
        list[i] == if i < ipos && snapshot[i].userName == name && snapshot[i].revoked
                   then list0[i].(revoked := false, added := now) else list0[i]
      invariant matched == exists k :: 0 <= k < ipos && snapshot[k].userName == name
    {
      if snapshot[ipos].userName == name {
        if snapshot[ipos].revoked {
          list := list[ipos := list[ipos].(revoked := false, added := now)];
        }
        matched := true;
      }
    }
  }

  /** One more name of the array: it is appended only while no earlier name was known,
      when it is non-empty and not stored. */
  lemma NameStep(names: seq<string>, name: string, snapshot: seq<BanRecord>, now: string)
    ensures AnyKnown(names + [name], snapshot) == (AnyKnown(names, snapshot) || (name != "" && HasName(snapshot, name)))
    ensures NameBans(FreshNames(names + [name], snapshot), now) ==
      if AnyKnown(names, snapshot) || name == "" || HasName(snapshot, name) then NameBans(FreshNames(names, snapshot), now)
      else NameBans(FreshNames(names, snapshot), now) + [NewBan(name, "", now)]
    ensures |FreshNames(names + [name], snapshot)| ==
      if AnyKnown(names, snapshot) || name == "" || HasName(snapshot, name) then |FreshNames(names, snapshot)|
      else |FreshNames(names, snapshot)| + 1
  {
    FreshNamesConcat(names, [name], snapshot);
    assert [name][1..] == [];
    var a := FreshNames(names, snapshot);
    if !(AnyKnown(names, snapshot) || name == "" || HasName(snapshot, name)) {
      assert FreshNames(names + [name], snapshot) == a + [name];
      assert NameBans(a + [name], now) == NameBans(a, now) + [NewBan(name, "", now)];
    }
  }

  /** One non-empty name's scan extends the reinstatement to that name. */
  lemma ReinstatedStep(list0: seq<BanRecord>, snapshot: seq<BanRecord>, names: seq<string>, name: string, now: string,
                       tail: seq<BanRecord>, before: seq<BanRecord>, after: seq<BanRecord>)
    requires |snapshot| <= |list0| && name != ""
    requires before == Reinstated(list0, snapshot, names, now) + tail
    requires |after| == |before|
    requires forall i :: 0 <= i < |after| ==>
      after[i] == if i < |snapshot| && snapshot[i].userName == name && snapshot[i].revoked
                  then before[i].(revoked := false, added := now) else before[i]
    ensures after == Reinstated(list0, snapshot, names + [name], now) + tail
  {
    RequestedAppend(names, name);
    var want := Reinstated(list0, snapshot, names + [name], now) + tail;
    forall i | 0 <= i < |after| ensures after[i] == want[i] {
      if i >= |list0| {
        assert after[i] == tail[i - |list0|] == want[i];
      }
    }
  }

  /** An empty name asks for nothing. */
  lemma ReinstatedSkipsEmpty(list0: seq<BanRecord>, snapshot: seq<BanRecord>, names: seq<string>, now: string)
    requires |snapshot| <= |list0|
    ensures Reinstated(list0, snapshot, names + [""], now) == Reinstated(list0, snapshot, names, now)
  {
    RequestedAppend(names, "");
  }

  /** The name pass (update.go:42-65), starting from the current list `list0`. */
  method StringPass(list0: seq<BanRecord>, snapshot: seq<BanRecord>, names: seq<string>, now: string)
    returns (list: seq<BanRecord>, added: nat)
    requires |snapshot| <= |list0|
    ensures list == Reinstated(list0, snapshot, names, now) + NameBans(FreshNames(names, snapshot), now)
    ensures added == |FreshNames(names, snapshot)|
  {
    list, added := list0, 0;
    var found := false;
    if |names| > 0 {
      for j := 0 to |names|
        invariant found == AnyKnown(names[..j], snapshot)
        invariant list == Reinstated(list0, snapshot, names[..j], now) + NameBans(FreshNames(names[..j], snapshot), now)
        invariant added == |FreshNames(names[..j], snapshot)|
      {
        var name := names[j];
        assert names[..j + 1] == names[..j] + [name];
        NameStep(names[..j], name, snapshot, now);
        if name != "" {
          ghost var tail := NameBans(FreshNames(names[..j], snapshot), now);
          ghost var before := list;
          var matched;
          list, matched := ReinstateName(list, snapshot, name, now);
          if matched {
            found := true;
          }
          ReinstatedStep(list0, snapshot, names[..j], name, now, tail, before, list);
          if !found {
            added := added + 1;
            list := list + [NewBan(name, "", now)];
          }
        } else {
          ReinstatedSkipsEmpty(list0, snapshot, names[..j], now);
        }
      }
      assert names[..|names|] == names;
    }
  }

  // ---------------------------------------------------------------------------
  // Object-array pass (update.go:68-106)
  // ---------------------------------------------------------------------------

  /** update.go:92 counts a stored entry as a match only when the fresh record itself
      is not revoked. */
  predicate MatchesStored(item: BanRecord, snapshot: seq<BanRecord>) {
    exists k :: 0 <= k < |snapshot| && snapshot[k].userName == item.userName && item.revoked == false
  }

  /** Whether the object pass appends a record for `item`. */
  predicate AppendsObject(item: BanRecord, snapshot: seq<BanRecord>) {
    item.userName != "" && !MatchesStored(item, snapshot)
  }

  /** The record appended for an object (update.go:103): its name and reason only. */
  function ObjectBan(item: BanRecord, now: string): BanRecord {
    NewBan(item.userName, item.reason, now)
  }

  /** The records the object pass appends, in order. */
  function ObjectAdditions(bans: seq<BanRecord>, snapshot: seq<BanRecord>, now: string): seq<BanRecord> {
    if bans == [] then
      []
    else
      (if AppendsObject(bans[0], snapshot) then [ObjectBan(bans[0], now)] else [])
      + ObjectAdditions(bans[1..], snapshot, now)
  }

  /** A fresh record is appended exactly when it has a name and is either revoked or
      unknown: a revoked fresh record is appended even when its name is stored. */
  lemma AppendsObjectIff(item: BanRecord, snapshot: seq<BanRecord>)
    ensures AppendsObject(item, snapshot) <==> item.userName != "" && (item.revoked || !HasName(snapshot, item.userName))
  {
  }

  lemma {:induction false} ObjectAdditionsConcat(a: seq<BanRecord>, b: seq<BanRecord>, snapshot: seq<BanRecord>, now: string)
    ensures ObjectAdditions(a + b, snapshot, now) == ObjectAdditions(a, snapshot, now) + ObjectAdditions(b, snapshot, now)
  {
    if a == [] {
      assert a + b == b;
    } else {
      assert (a + b)[0] == a[0];
      assert (a + b)[1..] == a[1..] + b;
      ObjectAdditionsConcat(a[1..], b, snapshot, now);
    }
  }

  /** The appended records are exactly the records built from the fresh objects that
      the pass appends. */
  lemma {:induction false} ObjectAdditionsMembers(bans: seq<BanRecord>, snapshot: seq<BanRecord>, now: string)
    ensures forall r :: r in ObjectAdditions(bans, snapshot, now) <==>
      exists i :: 0 <= i < |bans| && AppendsObject(bans[i], snapshot) && r == ObjectBan(bans[i], now)
  {
    if bans != [] {
      ObjectAdditionsMembers(bans[1..], snapshot, now);
      forall r | (exists i :: 0 <= i < |bans| && AppendsObject(bans[i], snapshot) && r == ObjectBan(bans[i], now))
        ensures r in ObjectAdditions(bans, snapshot, now)
      {
        var i :| 0 <= i < |bans| && AppendsObject(bans[i], snapshot) && r == ObjectBan(bans[i], now);
        if i > 0 {
          assert bans[1..][i - 1] == bans[i];
        }
      }
    }
  }

  method ObjectPass(list0: seq<BanRecord>, snapshot: seq<BanRecord>, bans: seq<BanRecord>, now: string)
    returns (list: seq<BanRecord>, added: nat)
    ensures list == list0 + ObjectAdditions(bans, snapshot, now)
    ensures added == |ObjectAdditions(bans, snapshot, now)|
  {
    list, added := list0, 0;
    for ipos := 0 to |bans|
      invariant list == list0 + ObjectAdditions(bans[..ipos], snapshot, now)
      invariant added == |ObjectAdditions(bans[..ipos], snapshot, now)|
    {
      var item := bans[ipos];
      assert bans[..ipos + 1] == bans[..ipos] + [item];
      ObjectAdditionsConcat(bans[..ipos], [item], snapshot, now);
      assert [item][1..] == [];
      if item.userName != "" {
        var found := false;
        for k := 0 to |snapshot|
          invariant found == exists m :: 0 <= m < k && snapshot[m].userName == item.userName && item.revoked == false
        {
          if snapshot[k].userName == item.userName && item.revoked == false {
            if item.revoked {
              // update.go:93-96: the guard above has just required the record to be
              // unrevoked, so the reinstatement written here can never run.
              assert false;
            }
            found := true;
          }
        }
        if !found {
          added := added + 1;
          list := list + [ObjectBan(item, now)];
        }
      }
    }
    assert bans[..|bans|] == bans;
  }

  // ---------------------------------------------------------------------------
  // The nested-shape retry (update.go:75-85)
  // ---------------------------------------------------------------------------

  function TrimSuffix(s: string, c: char): string {
    if |s| > 0 && s[|s| - 1] == c then s[..|s| - 1] else s
  }

  function TrimPrefix(s: string, c: char): string {
    if |s| > 0 && s[0] == c then s[1..] else s
  }

  /** The payload with at most one `]` removed from its end and then at most one `[`
      removed from its start. */
  function StripOuterBrackets(data: string): (r: string)
    ensures || r == data
            || (|data| >= 1 && data[0] == '[' && r == data[1..])
            || (|data| >= 1 && data[|data| - 1] == ']' && r == data[..|data| - 1])
            || (|data| >= 2 && data[0] == '[' && data[|data| - 1] == ']' && r == data[1..|data| - 1])
    ensures |data| >= 2 && data[0] == '[' && data[|data| - 1] == ']' ==> r == data[1..|data| - 1]
    ensures (|data| == 0 || (data[0] != '[' && data[|data| - 1] != ']')) ==> r == data
  {
    TrimPrefix(TrimSuffix(data, ']'), '[')
  }

  /** A single object wrapped in one extra pair of brackets is unwrapped, and only one
      pair is ever removed. */
  lemma StripUnwrapsOnePair(inner: string)
    ensures StripOuterBrackets("[" + inner + "]") == inner
  {
    var data := "[" + inner + "]";
    assert data[1..|data| - 1] == inner;
  }

  /** The object records the pass merges: the payload's decoded array, replaced by the
      decoding of the bracket-stripped payload when at most one record decoded and that
      second decoding succeeds. */
  function DecodedBans(data: string, decodeBans: BanDecoder): (bans: seq<BanRecord>)
    ensures |decodeBans(data).GetOr([])| > 1 ==> bans == decodeBans(data).GetOr([])
    ensures |decodeBans(data).GetOr([])| <= 1 && |data| > 0 && decodeBans(StripOuterBrackets(data)).Some? ==>
      bans == decodeBans(StripOuterBrackets(data)).value
    ensures |decodeBans(data).GetOr([])| <= 1 && |data| > 0 && decodeBans(StripOuterBrackets(data)).None? ==>
      bans == decodeBans(data).GetOr([])
    ensures |data| == 0 ==> bans == decodeBans(data).GetOr([])
  {
    var first := decodeBans(data).GetOr([]);
    if |first| <= 1 && |data| > 0 then
      match decodeBans(StripOuterBrackets(data))
      case Some(retried) => retried
      case None => first
    else first
  }

  /** A record wrapped in one extra pair of brackets, which decodes to at most one record,
      is recovered by the retry on its inner text. */
  lemma NestedRecordRecovered(x: string, r: BanRecord, decodeBans: BanDecoder)
    requires |decodeBans("[" + x + "]").GetOr([])| <= 1
    requires decodeBans(x) == Some([r])
    ensures DecodedBans("[" + x + "]", decodeBans) == [r]
  {
    StripUnwrapsOnePair(x);
  }

  // ---------------------------------------------------------------------------
  // Revocation pass (update.go:108-133)
  // ---------------------------------------------------------------------------

  /** The names of the old entries absent from `compare`, in order: the candidates. */
  function Candidates(oldList: seq<BanRecord>, compare: seq<BanRecord>): seq<string> {
    if oldList == [] then
      []
    else
      (if HasName(compare, oldList[0].userName) then [] else [oldList[0].userName])
      + Candidates(oldList[1..], compare)
  }

  /** The current list with every old entry absent from `compare` revoked at its own index. */
  function MarkRevoked(list: seq<BanRecord>, oldList: seq<BanRecord>, compare: seq<BanRecord>): seq<BanRecord>
    requires |oldList| <= |list|
  {
    seq(|list|, i requires 0 <= i < |list| =>
      if i < |oldList| && !HasName(compare, oldList[i].userName) then list[i].(revoked := true) else list[i])
  }

  lemma {:induction false} CandidatesConcat(a: seq<BanRecord>, b: seq<BanRecord>, compare: seq<BanRecord>)
    ensures Candidates(a + b, compare) == Candidates(a, compare) + Candidates(b, compare)
  {
    if a == [] {
      assert a + b == b;
    } else {
      assert (a + b)[0] == a[0];
      assert (a + b)[1..] == a[1..] + b;
      CandidatesConcat(a[1..], b, compare);
    }
  }

  /** The candidates are exactly the names of old entries missing from `compare`. */
  lemma {:induction false} CandidatesMembers(oldList: seq<BanRecord>, compare: seq<BanRecord>)
    ensures forall n :: n in Candidates(oldList, compare) <==>
      !HasName(compare, n) && exists i :: 0 <= i < |oldList| && oldList[i].userName == n
  {
    if oldList != [] {
      CandidatesMembers(oldList[1..], compare);
      forall n | !HasName(compare, n) && exists i :: 0 <= i < |oldList| && oldList[i].userName == n
        ensures n in Candidates(oldList, compare)
      {
        var i :| 0 <= i < |oldList| && oldList[i].userName == n;
        if i > 0 {
          assert oldList[1..][i - 1] == oldList[i];
        }
      }
    }
  }

  /** Revokes the old entries missing from `compare`. The log heuristic: the k-th
      candidate (counting from 1) gets its own log line unless the old list had more
      than 30 entries and k exceeds a tenth of it; the candidate that crosses the line
      is itself silent. Logging never changes which entries are revoked. */
  method RevocationPass(list0: seq<BanRecord>, oldList: seq<BanRecord>, compare: seq<BanRecord>)
    returns (list: seq<BanRecord>, revoked: nat, logged: seq<string>, silenced: bool)
    requires |oldList| <= |list0|
    ensures list == MarkRevoked(list0, oldList, compare)
    ensures revoked == |Candidates(oldList, compare)|
    ensures logged <= Candidates(oldList, compare)
    ensures |logged| == if |oldList| > 30 && revoked > |oldList| / 10 then |oldList| / 10 else revoked
    ensures silenced <==> |oldList| > 30 && revoked > |oldList| / 10
  {
    list, revoked, logged, silenced := list0, 0, [], false;
    var oldLen := |oldList|;
    var threshold := oldLen / 10;
    var count := 0;
    for ipos := 0 to |oldList|
      invariant |list| == |list0|
      invariant forall i :: 0 <= i < |list| ==>
        list[i] == if i < ipos && !HasName(compare, oldList[i].userName) then list0[i].(revoked := true) else list0[i]
      invariant count == revoked == |Candidates(oldList[..ipos], compare)|
      invariant oldLen == if |oldList| > 30 && count > threshold then 0 else |oldList|
      invariant silenced == (|oldList| > 30 && count > threshold)
      invariant logged == if silenced then Candidates(oldList[..ipos], compare)[..threshold] else Candidates(oldList[..ipos], compare)
    {
      var item := oldList[ipos];
      assert oldList[..ipos + 1] == oldList[..ipos] + [item];
      CandidatesConcat(oldList[..ipos], [item], compare);
      assert [item][1..] == [];
      var found := false;
      var k := 0;
      while k < |compare|
        invariant 0 <= k <= |compare|
        invariant !found
        invariant forall m :: 0 <= m < k ==> compare[m].userName != item.userName
      {
        if compare[k].userName == item.userName {
          found := true;
          break;
        }
        k := k + 1;
      }
      assert found <==> HasName(compare, item.userName);
      if !found {
        count := count + 1;
        revoked := revoked + 1;
        if oldLen > 30 && count > threshold {
          oldLen := 0;
          silenced := true;
        }
        if oldLen > 0 {
          logged := logged + [item.userName];
        }
        list := list[ipos := list[ipos].(revoked := true)];
      }
    }
    assert oldList[..|oldList|] == oldList;
  }

  /** An old list whose every name appears in the comparison list has no candidates. */
  lemma {:induction false} NoCandidatesWhenAllPresent(oldList: seq<BanRecord>, compare: seq<BanRecord>)
    requires forall i :: 0 <= i < |oldList| ==> HasName(compare, oldList[i].userName)
    ensures Candidates(oldList, compare) == []
  {
    if oldList != [] {
      assert HasName(compare, oldList[0].userName);
      NoCandidatesWhenAllPresent(oldList[1..], compare);
    }
  }

  /** As wired (update.go:25 and 115), the pass compares the pre-fetch list with itself,
      so no old entry is ever a candidate and the list is never changed. */
  lemma AsWiredNothingRevoked(list: seq<BanRecord>, oldList: seq<BanRecord>)
    requires |oldList| <= |list|
    ensures Candidates(oldList, oldList) == []
    ensures MarkRevoked(list, oldList, oldList) == list
  {
    forall i | 0 <= i < |oldList| ensures HasName(oldList, oldList[i].userName) {
      assert oldList[i].userName == oldList[i].userName;
    }
    NoCandidatesWhenAllPresent(oldList, oldList);
  }

  // ---------------------------------------------------------------------------
  // The three passes for one peer (update.go:32-134)
  // ---------------------------------------------------------------------------

  /** The list after the name pass, or the pre-fetch list when the payload is not a name array. */
  function AfterNames(snapshot: seq<BanRecord>, data: string, decodeNames: NameDecoder, now: string): seq<BanRecord> {
    match decodeNames(data)
    case Some(names) => Reinstated(snapshot, snapshot, names, now) + NameBans(FreshNames(names, snapshot), now)
    case None => snapshot
  }

  /** The number of bans the name pass appends. */
  function NameAppends(snapshot: seq<BanRecord>, data: string, decodeNames: NameDecoder): nat {
    match decodeNames(data)
    case Some(names) => |FreshNames(names, snapshot)|
    case None => 0
  }

  /** The peer's list after one fetch that delivered `data`. */
  function PeerBans(snapshot: seq<BanRecord>, data: string, decodeNames: NameDecoder, decodeBans: BanDecoder, now: string): seq<BanRecord> {
    if |data| == 0 then snapshot
    else
      var afterObjects := AfterNames(snapshot, data, decodeNames, now)
        + ObjectAdditions(DecodedBans(data, decodeBans), snapshot, now);
      MarkRevoked(afterObjects, snapshot, snapshot)
  }

  /** The number of bans the fetch appended to the peer's list (lDirty). */
  function PeerAppends(snapshot: seq<BanRecord>, data: string, decodeNames: NameDecoder, decodeBans: BanDecoder, now: string): nat {
    if |data| == 0 then 0
    else NameAppends(snapshot, data, decodeNames) + |ObjectAdditions(DecodedBans(data, decodeBans), snapshot, now)|
  }

  /** Whether the fetch reinstates the stored entry `e`. */
  predicate Reinstates(e: BanRecord, data: string, decodeNames: NameDecoder) {
    |data| > 0 && e.revoked && decodeNames(data).Some? && Requested(decodeNames(data).value, e.userName)
  }

  method MergePeer(snapshot: seq<BanRecord>, data: string, decodeNames: NameDecoder, decodeBans: BanDecoder, now: string)
    returns (list: seq<BanRecord>, added: nat, revoked: nat)
    ensures list == PeerBans(snapshot, data, decodeNames, decodeBans, now)
    ensures added == PeerAppends(snapshot, data, decodeNames, decodeBans, now)
    ensures revoked == 0
  {
    list, added, revoked := snapshot, 0, 0;
    if |data| > 0 {
      match decodeNames(data) {
        case Some(names) =>
          var n;
          list, n := StringPass(list, snapshot, names, now);
          added := added + n;
        case None =>
      }
      var bans := DecodedBans(data, decodeBans);
      var m;
      list, m := ObjectPass(list, snapshot, bans, now);
      added := added + m;
      var logged, silenced;
      list, revoked, logged, silenced := RevocationPass(list, snapshot, snapshot);
      AsWiredNothingRevoked(list, snapshot);
    }
  }

  /** Shape of the list after the name pass; used by PeerBansOnlyAppends. */
  lemma AfterNamesShape(snapshot: seq<BanRecord>, data: string, decodeNames: NameDecoder, now: string)
    requires |data| > 0
    ensures |AfterNames(snapshot, data, decodeNames, now)| == |snapshot| + NameAppends(snapshot, data, decodeNames)
    ensures forall i :: 0 <= i < |snapshot| ==>
      AfterNames(snapshot, data, decodeNames, now)[i] ==
        if Reinstates(snapshot[i], data, decodeNames) then snapshot[i].(revoked := false, added := now) else snapshot[i]
    ensures forall i :: |snapshot| <= i < |AfterNames(snapshot, data, decodeNames, now)| ==>
      var b := AfterNames(snapshot, data, decodeNames, now)[i];
      b.userName != "" && !b.revoked && b.added == now
  {
    if decodeNames(data).Some? {
      var names := decodeNames(data).value;
      var appended := FreshNames(names, snapshot);
      var after := AfterNames(snapshot, data, decodeNames, now);
      FreshNamesAreNew(names, snapshot);
      forall i | |snapshot| <= i < |after|
        ensures after[i].userName != "" && !after[i].revoked && after[i].added == now
      {
        assert after[i] == NameBans(appended, now)[i - |snapshot|];
        assert appended[i - |snapshot|] in appended;
      }
    }
  }

  /** Across a fetch nothing is removed or revoked: the stored entries keep their place,
      and change only by reinstatement; the list grows only by appends at its end, each
      unrevoked, named and stamped with the fetch time. */
  lemma PeerBansOnlyAppends(snapshot: seq<BanRecord>, data: string, decodeNames: NameDecoder, decodeBans: BanDecoder, now: string)
    ensures |PeerBans(snapshot, data, decodeNames, decodeBans, now)| == |snapshot| + PeerAppends(snapshot, data, decodeNames, decodeBans, now)
    ensures forall i :: 0 <= i < |snapshot| ==>
      PeerBans(snapshot, data, decodeNames, decodeBans, now)[i] ==
        if Reinstates(snapshot[i], data, decodeNames) then snapshot[i].(revoked := false, added := now) else snapshot[i]
    ensures forall i :: |snapshot| <= i < |PeerBans(snapshot, data, decodeNames, decodeBans, now)| ==>
      var b := PeerBans(snapshot, data, decodeNames, decodeBans, now)[i];
      b.userName != "" && !b.revoked && b.added == now
  {
    if |data| > 0 {
      var afterNames := AfterNames(snapshot, data, decodeNames, now);
      var additions := ObjectAdditions(DecodedBans(data, decodeBans), snapshot, now);
      var merged := afterNames + additions;
      AfterNamesShape(snapshot, data, decodeNames, now);
      AsWiredNothingRevoked(merged, snapshot);
      assert PeerBans(snapshot, data, decodeNames, decodeBans, now) == merged;
      ObjectAdditionsMembers(DecodedBans(data, decodeBans), snapshot, now);
      forall i | |afterNames| <= i < |merged|
        ensures merged[i].userName != "" && !merged[i].revoked && merged[i].added == now
      {
        assert merged[i] == additions[i - |afterNames|];
        assert additions[i - |afterNames|] in additions;
      }
      assert forall i :: 0 <= i < |afterNames| ==> merged[i] == afterNames[i];
    }
  }
}
