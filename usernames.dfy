/**
 * The per-match directory from sender id to username that both chat
 * analyzers keep (parser/src/analyzer/chat.rs and
 * chatrans/src/processor/processor.rs), and the loop that upserts a roster
 * into it: `insert(player.playerid.try_into().unwrap(), player.username)` for
 * each player in order.
 */
module Usernames {
  import opened Wrappers
  import opened Ints
  import opened Decoded

  type Directory = map<i32, string>

  /** What the upsert loop leaves: the directory, and the player id that did not fit an i32 if one stopped it. */
  datatype Upsert = Upsert(usernames: Directory, overflow: Option<i64>)

  function Upserted(usernames: Directory, players: seq<ReceivedPlayer>): Upsert
    decreases |players|
  {
    if players == [] then Upsert(usernames, None)
    else if !IsI32(players[0].playerid) then Upsert(usernames, Some(players[0].playerid))
    else Upserted(usernames[players[0].playerid := players[0].username], players[1..])
  }

  /** The upsert loop. */
  method InsertPlayers(usernames: Directory, players: seq<ReceivedPlayer>) returns (r: Directory, overflow: Option<i64>)
    ensures Upsert(r, overflow) == Upserted(usernames, players)
  {
    r := usernames;
    var j := 0;
    while j < |players|
      invariant 0 <= j <= |players|
      invariant Upserted(usernames, players) == Upserted(r, players[j..])
    {
      var player := players[j];
      assert players[j..][0] == player && players[j..][1..] == players[j + 1..];
      if !IsI32(player.playerid) {
        return r, Some(player.playerid);
      }
      r := r[player.playerid := player.username];
      j := j + 1;
    }
    return r, None;
  }

  /** No key is ever removed, whether or not the loop runs to the end. */
  lemma {:induction false} UpsertedKeepsKeys(usernames: Directory, players: seq<ReceivedPlayer>)
    ensures usernames.Keys <= Upserted(usernames, players).usernames.Keys
    decreases |players|
  {
    if players != [] && IsI32(players[0].playerid) {
      UpsertedKeepsKeys(usernames[players[0].playerid := players[0].username], players[1..]);
    }
  }

  /** The loop stops exactly when a player id does not fit an i32, and then at the first such id. */
  lemma {:induction false} UpsertedOverflow(usernames: Directory, players: seq<ReceivedPlayer>)
    ensures Upserted(usernames, players).overflow.Some? <==>
      exists i :: 0 <= i < |players| && !IsI32(players[i].playerid)
    ensures Upserted(usernames, players).overflow.Some? ==>
      exists i :: 0 <= i < |players| && !IsI32(players[i].playerid)
        && Upserted(usernames, players).overflow.value == players[i].playerid
        && forall j :: 0 <= j < i ==> IsI32(players[j].playerid)
    decreases |players|
  {
    if players != [] && IsI32(players[0].playerid) {
      var rest := players[1..];
      UpsertedOverflow(usernames[players[0].playerid := players[0].username], rest);
      assert forall i :: 0 <= i < |rest| ==> rest[i] == players[i + 1];
      if Upserted(usernames, players).overflow.Some? {
        var i :| 0 <= i < |rest| && !IsI32(rest[i].playerid)
          && Upserted(usernames, players).overflow.value == rest[i].playerid
          && forall j :: 0 <= j < i ==> IsI32(rest[j].playerid);
        assert !IsI32(players[i + 1].playerid);
        assert forall j :: 0 <= j < i + 1 ==> IsI32(players[j].playerid) by {
          forall j | 0 <= j < i + 1 ensures IsI32(players[j].playerid) {
            if j > 0 { assert players[j] == rest[j - 1]; }
          }
        }
      }
    }
  }

  /** `players[i]` is the last player of the list with its id. */
  predicate LastWithId(players: seq<ReceivedPlayer>, i: nat)
    requires i < |players|
  {
    forall j :: i < j < |players| ==> players[j].playerid != players[i].playerid
  }

  /**
   * When every id fits, the directory holds the old keys and the roster's ids;
   * each roster id names the last player listed with it, and every other key
   * keeps its old name.
   */
  lemma {:induction false} UpsertedLastWriteWins(usernames: Directory, players: seq<ReceivedPlayer>)
    requires forall i :: 0 <= i < |players| ==> IsI32(players[i].playerid)
    ensures Upserted(usernames, players).overflow == None
    ensures forall k :: k in Upserted(usernames, players).usernames <==>
      k in usernames || exists i :: 0 <= i < |players| && players[i].playerid == k
    ensures forall i :: 0 <= i < |players| && LastWithId(players, i) ==>
      Upserted(usernames, players).usernames[players[i].playerid] == players[i].username
    ensures forall k :: k in usernames && (forall i :: 0 <= i < |players| ==> players[i].playerid != k) ==>
      Upserted(usernames, players).usernames[k] == usernames[k]
    decreases |players|
  {
    if players != [] {
      var p := players[0];
      var rest := players[1..];
      var next := usernames[p.playerid := p.username];
      assert forall i :: 0 <= i < |rest| ==> rest[i] == players[i + 1];
      UpsertedLastWriteWins(next, rest);
      var m := Upserted(next, rest).usernames;
      assert m == Upserted(usernames, players).usernames;
      forall k ensures k in m <==> k in usernames || exists i :: 0 <= i < |players| && players[i].playerid == k {
        if exists i :: 0 <= i < |rest| && rest[i].playerid == k {
          var i :| 0 <= i < |rest| && rest[i].playerid == k;
          assert players[i + 1].playerid == k;
        }
        if exists i :: 0 <= i < |players| && players[i].playerid == k {
          var i :| 0 <= i < |players| && players[i].playerid == k;
          if i > 0 { assert rest[i - 1].playerid == k; }
        }
      }
      forall i | 0 <= i < |players| && LastWithId(players, i)
        ensures m[players[i].playerid] == players[i].username
      {
        if i == 0 {
          assert forall j :: 0 <= j < |rest| ==> rest[j].playerid != p.playerid by {
            forall j | 0 <= j < |rest| ensures rest[j].playerid != p.playerid {
              assert rest[j] == players[j + 1];
            }
          }
        } else {
          assert rest[i - 1] == players[i];
          assert LastWithId(rest, i - 1) by {
            forall j | i - 1 < j < |rest| ensures rest[j].playerid != rest[i - 1].playerid {
              assert rest[j] == players[j + 1];
            }
          }
        }
      }
      forall k | k in usernames && (forall i :: 0 <= i < |players| ==> players[i].playerid != k)
        ensures m[k] == usernames[k]
      {
        assert p.playerid != k;
        assert forall i :: 0 <= i < |rest| ==> rest[i].playerid != k by {
          forall i | 0 <= i < |rest| ensures rest[i].playerid != k {
            assert rest[i] == players[i + 1];
          }
        }
      }
    }
  }
}
