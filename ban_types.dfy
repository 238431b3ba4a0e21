/** Records shared by the ban-list merge, the registry sync and the local ban file
    (serverData and banDataType). Timestamps are abstract strings: the model never
    looks inside them, it only records which one was written where. */
module BanTypes {

  datatype Option<T> = None | Some(value: T) {
    function GetOr(default: T): T {
      match this
      case Some(v) => v
      case None => default
    }
  }

  /** One ban. `address` is "" when the record carries none. */
  datatype BanRecord = BanRecord(
    userName: string,
    reason: string,
    revoked: bool,
    added: string,
    address: string)

  /** One known server of the registry. `banList` is local state, never exchanged. */
  datatype ServerEntry = ServerEntry(
    name: string,
    bans: string,
    trusts: string,
    logs: string,
    website: string,
    discord: string,
    jsonGzip: bool,
    subscribed: bool,
    added: string,
    banList: seq<BanRecord>)

  /** What a download returned: the bytes read, and whether an error was reported
      alongside them (a failed read may still deliver part of the body). */
  datatype FetchResult = FetchResult(data: string, failed: bool)

  /** The JSON decoder, a collaborator: `None` when the payload does not decode into
      the target shape, otherwise the decoded value. */
  type NameDecoder = string -> Option<seq<string>>
  type BanDecoder = string -> Option<seq<BanRecord>>

  /** A ban created locally: never revoked, stamped with the local time, no address. */
  function NewBan(userName: string, reason: string, now: string): BanRecord {
    BanRecord(userName, reason, false, now, "")
  }

  /** Whether some ban of `list` is for `name`. */
  predicate HasName(list: seq<BanRecord>, name: string) {
    exists i :: 0 <= i < |list| && list[i].userName == name
  }

  /** The non-empty names of `names`, in order: both name arrays skip empty strings. */
  function NonEmptyNames(names: seq<string>): seq<string> {
    if names == [] then []
    else (if names[0] == "" then [] else [names[0]]) + NonEmptyNames(names[1..])
  }

  lemma {:induction false} NonEmptyNamesConcat(a: seq<string>, b: seq<string>)
    ensures NonEmptyNames(a + b) == NonEmptyNames(a) + NonEmptyNames(b)
  {
    if a == [] {
      assert a + b == b;
    } else {
      assert (a + b)[0] == a[0] && (a + b)[1..] == a[1..] + b;
      NonEmptyNamesConcat(a[1..], b);
    }
  }

  /** Exactly the empty names are dropped. */
  lemma {:induction false} NonEmptyNamesCount(names: seq<string>)
    ensures |NonEmptyNames(names)| == |names| - multiset(names)[""]
  {
    if names != [] {
      assert names == [names[0]] + names[1..];
      NonEmptyNamesCount(names[1..]);
    }
  }

  lemma {:induction false} NonEmptyNamesMembers(names: seq<string>)
    ensures forall n :: n in NonEmptyNames(names) <==> n != "" && n in names
  {
    if names != [] {
      NonEmptyNamesMembers(names[1..]);
    }
  }
}
