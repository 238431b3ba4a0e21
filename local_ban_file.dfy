/** The local ban file (FactBanSync/json.go): readServerBanList, which folds the two
    shapes a ban file may have into one list and replaces the global ban data with it,
    and FileNameFilter, which sanitises a string for use in a file name. */
module LocalBanFile {
  import opened BanTypes

  /** The record kept for a name of the name array: the name and nothing else
      (json.go:118). */
  function NameOnly(name: string): BanRecord {
    BanRecord(name, "", false, "", "")
  }

  /** The placeholder address "0.0.0.0" is cleared; every other field is kept (json.go:133-135). */
  function ClearPlaceholder(item: BanRecord): BanRecord {
    if item.address == "0.0.0.0" then item.(address := "") else item
  }

  /** The records kept from the name array: one per non-empty name, in order. */
  function NameRecords(names: seq<string>): seq<BanRecord> {
    var kept := NonEmptyNames(names);
    seq(|kept|, i requires 0 <= i < |kept| => NameOnly(kept[i]))
  }

  /** The records kept from the object array: those with a user name, in order, with the
      placeholder address cleared. */
  function ObjectRecords(items: seq<BanRecord>): seq<BanRecord> {
    if items == [] then
      []
    else
      (if items[0].userName == "" then [] else [ClearPlaceholder(items[0])]) + ObjectRecords(items[1..])
  }

  /** The list readServerBanList builds: name records first, then object records. */
  function BanFileRecords(names: Option<seq<string>>, items: seq<BanRecord>): seq<BanRecord> {
    (match names case Some(ns) => NameRecords(ns) case None => []) + ObjectRecords(items)
  }

  function UserNames(items: seq<BanRecord>): seq<string> {
    seq(|items|, i requires 0 <= i < |items| => items[i].userName)
  }

  lemma NameRecordsConcat(a: seq<string>, b: seq<string>)
    ensures NameRecords(a + b) == NameRecords(a) + NameRecords(b)
  {
    NonEmptyNamesConcat(a, b);
  }

  lemma {:induction false} ObjectRecordsConcat(a: seq<BanRecord>, b: seq<BanRecord>)
    ensures ObjectRecords(a + b) == ObjectRecords(a) + ObjectRecords(b)
  {
    if a == [] {
      assert a + b == b;
    } else {
      assert (a + b)[0] == a[0] && (a + b)[1..] == a[1..] + b;
      ObjectRecordsConcat(a[1..], b);
    }
  }

  /** Empty names are dropped and nothing else: one record per non-empty name. */
  lemma NameRecordsCount(names: seq<string>)
    ensures |NameRecords(names)| == |names| - multiset(names)[""]
  {
    NonEmptyNamesCount(names);
  }

  /** Each record holds only a non-empty name of the array, and every such name has one. */
  lemma NameRecordsMembers(names: seq<string>)
    ensures forall r :: r in NameRecords(names) <==> r.userName != "" && r.userName in names && r == NameOnly(r.userName)
  {
    NonEmptyNamesMembers(names);
    var kept := NonEmptyNames(names);
    forall r: BanRecord | r.userName != "" && r.userName in names && r == NameOnly(r.userName)
      ensures r in NameRecords(names)
    {
      var i :| 0 <= i < |kept| && kept[i] == r.userName;
      assert NameRecords(names)[i] == r;
    }
    forall r | r in NameRecords(names)
      ensures r.userName != "" && r.userName in names && r == NameOnly(r.userName)
    {
      var i :| 0 <= i < |kept| && NameRecords(names)[i] == r;
      assert kept[i] in kept;
    }
  }

  /** Records without a user name are dropped and nothing else: one record per named item. */
  lemma {:induction false} ObjectRecordsCount(items: seq<BanRecord>)
    ensures |ObjectRecords(items)| == |items| - multiset(UserNames(items))[""]
  {
    if items != [] {
      assert UserNames(items) == [items[0].userName] + UserNames(items[1..]);
      ObjectRecordsCount(items[1..]);
    }
  }

  /** The records kept are exactly the named items, each equal to its item except that a
      "0.0.0.0" address becomes "". */
  lemma {:induction false} ObjectRecordsMembers(items: seq<BanRecord>)
    ensures forall r :: r in ObjectRecords(items) <==>
      exists i :: 0 <= i < |items| && items[i].userName != "" && r == ClearPlaceholder(items[i])
  {
    if items != [] {
      ObjectRecordsMembers(items[1..]);
      forall r | exists i :: 0 <= i < |items| && items[i].userName != "" && r == ClearPlaceholder(items[i])
        ensures r in ObjectRecords(items)
      {
        var i :| 0 <= i < |items| && items[i].userName != "" && r == ClearPlaceholder(items[i]);
        if i > 0 {
          assert items[1..][i - 1] == items[i];
        }
      }
      forall r | r in ObjectRecords(items)
        ensures exists i :: 0 <= i < |items| && items[i].userName != "" && r == ClearPlaceholder(items[i])
      {
        if r !in ObjectRecords(items[1..]) {
          assert r == ClearPlaceholder(items[0]);
        } else {
          var i :| 0 <= i < |items[1..]| && items[1..][i].userName != "" && r == ClearPlaceholder(items[1..][i]);
          assert items[i + 1] == items[1..][i];
        }
      }
    }
  }

  /** No kept record is unnamed or carries the placeholder address. */
  lemma {:induction false} ObjectRecordsClean(items: seq<BanRecord>)
    ensures forall r :: r in ObjectRecords(items) ==> r.userName != "" && r.address != "0.0.0.0"
  {
    if items != [] {
      ObjectRecordsClean(items[1..]);
    }
  }

  /** The two loops of readServerBanList (json.go:108-138) over the decoded shapes. */
  method NormaliseBanFile(names: Option<seq<string>>, items: seq<BanRecord>) returns (bData: seq<BanRecord>)
    ensures bData == BanFileRecords(names, items)
  {
    bData := [];
    if names.Some? {
      var ns := names.value;
      for k := 0 to |ns|
        invariant bData == NameRecords(ns[..k])
      {
        assert ns[..k + 1] == ns[..k] + [ns[k]];
        NameRecordsConcat(ns[..k], [ns[k]]);
        assert [ns[k]][1..] == [];
        if ns[k] != "" {
          bData := bData + [NameOnly(ns[k])];
        }
      }
      assert ns[..|ns|] == ns;
    }
    ghost var fromNames := bData;
    for k := 0 to |items|
      invariant bData == fromNames + ObjectRecords(items[..k])
    {
      var item := items[k];
      assert items[..k + 1] == items[..k] + [item];
      ObjectRecordsConcat(items[..k], [item]);
      assert [item][1..] == [];
      if item.userName != "" {
        if item.address == "0.0.0.0" {
          item := item.(address := "");
        }
        bData := bData + [item];
      }
    }
    assert items[..|items|] == items;
  }

  /** banData: the local ban list. */
  class LocalBans {
    var banData: seq<BanRecord>

    constructor ()
      ensures banData == []
    {
      banData := [];
    }

    /** `contents` is the file's text, or None when it cannot be opened. */
    method ReadServerBanList(contents: Option<string>, decodeNames: NameDecoder, decodeBans: BanDecoder)
      modifies this
      ensures contents.None? ==> banData == old(banData)
      ensures contents.Some? ==>
        banData == BanFileRecords(decodeNames(contents.value), decodeBans(contents.value).GetOr([]))
    {
      if contents.None? {
        return;
      }
      var data := contents.value;
      var bans := decodeBans(data).GetOr([]);
      var bData := NormaliseBanFile(decodeNames(data), bans);
      banData := bData;
    }
  }

  // ---------------------------------------------------------------------------
  // FileNameFilter (json.go:246-250)
  // ---------------------------------------------------------------------------

  /** The characters the filter keeps: the complement of [^a-zA-Z0-9-_]. */
  predicate IsFileNameChar(c: char) {
    ('a' <= c <= 'z') || ('A' <= c <= 'Z') || ('0' <= c <= '9') || c == '-' || c == '_'
  }

  /** Deleting every run of other characters deletes each of them. */
  function FileNameFilter(s: string): (r: string)
    ensures forall i :: 0 <= i < |r| ==> IsFileNameChar(r[i])
    ensures |r| <= |s|
    ensures (forall i :: 0 <= i < |s| ==> IsFileNameChar(s[i])) ==> r == s
  {
    if s == [] then [] else (if IsFileNameChar(s[0]) then [s[0]] else []) + FileNameFilter(s[1..])
  }

  /** `sub` is `s` with some characters deleted, the rest kept in order. */
  predicate IsSubsequence(sub: string, s: string)
    decreases |s|
  {
    if sub == [] then true
    else if s == [] then false
    else if sub[0] == s[0] then IsSubsequence(sub[1..], s[1..])
    else IsSubsequence(sub, s[1..])
  }

  /** The output keeps the input's order: it is the input with some characters deleted. */
  lemma {:induction false} FileNameFilterIsSubsequence(s: string)
    ensures IsSubsequence(FileNameFilter(s), s)
  {
    if s != [] {
      FileNameFilterIsSubsequence(s[1..]);
      var r := FileNameFilter(s);
      if IsFileNameChar(s[0]) {
        assert r[0] == s[0] && r[1..] == FileNameFilter(s[1..]);
      } else {
        // r holds only allowed characters, so its head cannot be the dropped s[0].
        assert r == FileNameFilter(s[1..]);
        assert r != [] ==> r[0] != s[0];
      }
    }
  }

  /** Exactly the disallowed characters are deleted: every allowed character occurs as
      often as in the input, and no other character occurs. */
  lemma {:induction false} FileNameFilterKeepsAllowed(s: string)
    ensures forall c :: multiset(FileNameFilter(s))[c] == if IsFileNameChar(c) then multiset(s)[c] else 0
  {
    if s != [] {
      FileNameFilterKeepsAllowed(s[1..]);
      assert s == [s[0]] + s[1..];
    }
  }

  lemma FileNameFilterIdempotent(s: string)
    ensures FileNameFilter(FileNameFilter(s)) == FileNameFilter(s)
  {
  }
}
