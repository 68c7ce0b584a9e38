/**
 * The `onArenaStateReceived` branch of `from_entity_method`
 * (parser/src/analyzer/decoder.rs): the per-entity snapshots of the first
 * pickle blob and the player records of the second.
 *
 * Each loop of the source is a method proved equal to a specification
 * function. The functions carry the loop's accumulator, so that a call on the
 * whole input equals a call on what is left with what has been collected.
 */
module Arena {
  import opened Wrappers
  import opened Ints
  import Utf8
  import opened Pickle
  import opened Decoded

  /** One element of a per-entity snapshot list: a dictionary shown field by field, or None. */
  type Snapshot = Option<map<string, string>>

  // ------------------------------------------------------------ mapping

  /** `f` on every element of `xs` in order, appended to `acc`; the first failure aborts. */
  function TryMap<A, B>(xs: seq<A>, f: A -> Result<B, DecodeError>, acc: seq<B>): Result<seq<B>, DecodeError>
  {
    if xs == [] then Ok(acc)
    else match f(xs[0])
      case Err(e) => Err(e)
      case Ok(y) => TryMap(xs[1..], f, acc + [y])
  }

  /** A failing element fails the whole map, whatever was collected before it. */
  lemma {:induction false} TryMapFails<A, B>(xs: seq<A>, f: A -> Result<B, DecodeError>, acc: seq<B>, i: nat)
    requires i < |xs| && f(xs[i]).Err?
    ensures TryMap(xs, f, acc).Err?
  {
    if i > 0 && f(xs[0]).Ok? {
      assert xs[1..][i - 1] == xs[i];
      TryMapFails(xs[1..], f, acc + [f(xs[0]).value], i - 1);
    }
  }

  /** When no element fails, the results come one per element, in order, after `acc`. */
  lemma {:induction false} TryMapElementwise<A, B>(xs: seq<A>, f: A -> Result<B, DecodeError>, acc: seq<B>)
    requires forall i :: 0 <= i < |xs| ==> f(xs[i]).Ok?
    ensures TryMap(xs, f, acc).Ok?
    ensures |TryMap(xs, f, acc).value| == |acc| + |xs|
    ensures TryMap(xs, f, acc).value[..|acc|] == acc
    ensures forall i :: 0 <= i < |xs| ==> TryMap(xs, f, acc).value[|acc| + i] == f(xs[i]).value
  {
    if xs != [] {
      var y := f(xs[0]).value;
      var rest := xs[1..];
      assert forall i :: 0 <= i < |rest| ==> rest[i] == xs[i + 1];
      TryMapElementwise(rest, f, acc + [y]);
      var out := TryMap(rest, f, acc + [y]).value;
      assert out[..|acc| + 1] == acc + [y];
      assert out[..|acc|] == out[..|acc| + 1][..|acc|];
      forall i | 0 <= i < |xs|
        ensures out[|acc| + i] == f(xs[i]).value
      {
        if i == 0 {
          assert out[|acc|] == out[..|acc| + 1][|acc|];
        } else {
          assert out[|acc| + i] == out[|acc + [y]| + (i - 1)];
        }
      }
    }
  }

  /** What was collected before is a prefix of the result and changes nothing else. */
  lemma {:induction false} TryMapAcc<A, B>(xs: seq<A>, f: A -> Result<B, DecodeError>, acc: seq<B>)
    ensures TryMap(xs, f, acc).Ok? <==> TryMap(xs, f, []).Ok?
    ensures TryMap(xs, f, acc).Err? ==> TryMap(xs, f, acc) == TryMap(xs, f, [])
    ensures TryMap(xs, f, acc).Ok? ==> TryMap(xs, f, acc).value == acc + TryMap(xs, f, []).value
  {
    if xs != [] && f(xs[0]).Ok? {
      var y := f(xs[0]).value;
      assert TryMap(xs, f, []) == TryMap(xs[1..], f, [y]) by { assert [] + [y] == [y]; }
      TryMapAcc(xs[1..], f, acc + [y]);
      TryMapAcc(xs[1..], f, [y]);
      if TryMap(xs, f, acc).Ok? {
        assert acc + ([y] + TryMap(xs[1..], f, []).value) == acc + [y] + TryMap(xs[1..], f, []).value;
      }
    }
  }

  /** Both directions: the map succeeds exactly when every element does, and then holds their results. */
  lemma TryMapSucceeds<A, B>(xs: seq<A>, f: A -> Result<B, DecodeError>)
    ensures TryMap(xs, f, []).Ok? <==> forall i :: 0 <= i < |xs| ==> f(xs[i]).Ok?
    ensures TryMap(xs, f, []).Ok? ==>
      |TryMap(xs, f, []).value| == |xs|
      && forall i :: 0 <= i < |xs| ==> TryMap(xs, f, []).value[i] == f(xs[i]).value
  {
    if forall i :: 0 <= i < |xs| ==> f(xs[i]).Ok? {
      TryMapElementwise(xs, f, []);
    } else {
      var i :| 0 <= i < |xs| && f(xs[i]).Err?;
      TryMapFails(xs, f, [], i);
    }
  }

  // -------------------------------------------------------------- snapshots

  /**
   * The fields of one snapshot dictionary, collected into a map: each key must
   * be a UTF-8 byte string, each value is shown with `{:?}`, and a later key
   * overwrites an earlier one.
   */
  function SnapshotFields(d: seq<(HashableValue, Value)>, show: Value -> string, acc: map<string, string>)
    : Result<map<string, string>, DecodeError>
  {
    if d == [] then Ok(acc)
    else if !d[0].0.HBytes? then Err(UnexpectedShape)
    else match Utf8.Decode(d[0].0.bytes)
      case None => Err(KeyNotUtf8)
      case Some(key) => SnapshotFields(d[1..], show, acc[key := show(d[0].1)])
  }

  function SnapshotOf(elem: Value, show: Value -> string): Result<Snapshot, DecodeError>
  {
    match elem
    case Dict(d) =>
      (match SnapshotFields(d, show, map[])
       case Err(e) => Err(e)
       case Ok(fields) => Ok(Some(fields)))
    case PyNone => Ok(None)
    case _ => Err(UnexpectedShape)
  }

  function SnapshotStep(show: Value -> string): Value -> Result<Snapshot, DecodeError>
  {
    elem => SnapshotOf(elem, show)
  }

  /** The list of one entity, element by element in order; the first bad element aborts. */
  function SnapshotList(l: seq<Value>, show: Value -> string): Result<seq<Snapshot>, DecodeError>
  {
    TryMap(l, SnapshotStep(show), [])
  }

  /** `arg2`: every entry of the dictionary, an i64 key and a list, inserted in order. */
  function Snapshots(d: seq<(HashableValue, Value)>, show: Value -> string, acc: map<i64, seq<Snapshot>>)
    : Result<map<i64, seq<Snapshot>>, DecodeError>
  {
    if d == [] then Ok(acc)
    else if !d[0].0.HI64? || !d[0].1.List? then Err(UnexpectedShape)
    else match SnapshotList(d[0].1.items, show)
      case Err(e) => Err(e)
      case Ok(list) => Snapshots(d[1..], show, acc[d[0].0.i := list])
  }

  /** A snapshot list decodes element for element: it succeeds exactly when each element does, each in its place. */
  lemma SnapshotListElementwise(l: seq<Value>, show: Value -> string)
    ensures SnapshotList(l, show).Ok? <==> forall i :: 0 <= i < |l| ==> SnapshotOf(l[i], show).Ok?
    ensures SnapshotList(l, show).Ok? ==>
      |SnapshotList(l, show).value| == |l|
      && forall i :: 0 <= i < |l| ==> SnapshotList(l, show).value[i] == SnapshotOf(l[i], show).value
  {
    TryMapSucceeds(l, SnapshotStep(show));
  }

  /** The loop of the source that fills `arg2`. */
  method CollectSnapshots(d: seq<(HashableValue, Value)>, show: Value -> string)
    returns (r: Result<map<i64, seq<Snapshot>>, DecodeError>)
    ensures r == Snapshots(d, show, map[])
  {
    var arg2: map<i64, seq<Snapshot>> := map[];
    var j := 0;
    while j < |d|
      invariant 0 <= j <= |d|
      invariant Snapshots(d, show, map[]) == Snapshots(d[j..], show, arg2)
    {
      var entry := d[j];
      assert d[j..][0] == entry && d[j..][1..] == d[j + 1..];
      if !entry.0.HI64? || !entry.1.List? {
        return Err(UnexpectedShape);
      }
      var list := SnapshotList(entry.1.items, show);
      if list.Err? {
        return Err(list.error);
      }
      arg2 := arg2[entry.0.i := list.value];
      j := j + 1;
    }
    return Ok(arg2);
  }

  // ---------------------------------------------------------------- players

  /**
   * The property map of one player: every `(key, value)` tuple of its list, in
   * order, a later key overwriting an earlier one; elements that are not tuples
   * are skipped.
   */
  function Properties(elements: seq<Value>, acc: map<i64, Value>): Result<map<i64, Value>, DecodeError>
  {
    if elements == [] then Ok(acc)
    else if !elements[0].Tuple? then Properties(elements[1..], acc)
    else if |elements[0].items| == 0 || !elements[0].items[0].I64? || |elements[0].items| == 1 then
      Err(UnexpectedShape)
    else Properties(elements[1..], acc[elements[0].items[0].i := elements[0].items[1]])
  }

  /** The loop of the source that fills `values` for one player. */
  method CollectProperties(player: Value) returns (r: Result<map<i64, Value>, DecodeError>)
    ensures r == Properties(if player.List? then player.items else [], map[])
  {
    var values: map<i64, Value> := map[];
    if !player.List? {
      return Ok(values);
    }
    var elements := player.items;
    var j := 0;
    while j < |elements|
      invariant 0 <= j <= |elements|
      invariant Properties(elements, map[]) == Properties(elements[j..], values)
    {
      var elem := elements[j];
      assert elements[j..][0] == elem && elements[j..][1..] == elements[j + 1..];
      if elem.Tuple? {
        var kv := elem.items;
        if |kv| == 0 || !kv[0].I64? || |kv| == 1 {
          return Err(UnexpectedShape);
        }
        values := values[kv[0].i := kv[1]];
      }
      j := j + 1;
    }
    return Ok(values);
  }

  const AVATAR_ID: int := PropertyId(AvatarId)
  const NAME: int := PropertyId(Name)
  const CLAN_TAG: int := PropertyId(ClanTag)
  const SHIP_ID: int := PropertyId(ShipId)
  const PLAYER_ID: int := PropertyId(Id)
  const SKIN_ID: int := PropertyId(SkinId)
  const TEAM_ID: int := PropertyId(TeamId)
  const MAX_HEALTH: int := PropertyId(MaxHealth)

  /** Every property shown with `{:?}`. */
  function Raw(values: map<i64, Value>, show: Value -> string): map<i64, string>
  {
    map k | k in values :: show(values[k])
  }

  /**
   * The player record of a property map: the eight properties looked up in the
   * source's order, the name and clan strings, the five numbers i64s.
   */
  function PlayerOf(values: map<i64, Value>, show: Value -> string): Result<ReceivedPlayer, DecodeError>
  {
    if AVATAR_ID !in values then Err(MissingProperty(AVATAR_ID))
    else if NAME !in values then Err(MissingProperty(NAME))
    else if !values[NAME].String? then Err(WrongPropertyKind(NAME))
    else if CLAN_TAG !in values then Err(MissingProperty(CLAN_TAG))
    else if !values[CLAN_TAG].String? then Err(WrongPropertyKind(CLAN_TAG))
    else if SHIP_ID !in values then Err(MissingProperty(SHIP_ID))
    else if PLAYER_ID !in values then Err(MissingProperty(PLAYER_ID))
    else if SKIN_ID !in values then Err(MissingProperty(SKIN_ID))
    else if TEAM_ID !in values then Err(MissingProperty(TEAM_ID))
    else if MAX_HEALTH !in values then Err(MissingProperty(MAX_HEALTH))
    else if !values[AVATAR_ID].I64? then Err(WrongPropertyKind(AVATAR_ID))
    else if !values[SHIP_ID].I64? then Err(WrongPropertyKind(SHIP_ID))
    else if !values[PLAYER_ID].I64? then Err(WrongPropertyKind(PLAYER_ID))
    else if !values[TEAM_ID].I64? then Err(WrongPropertyKind(TEAM_ID))
    else if !values[MAX_HEALTH].I64? then Err(WrongPropertyKind(MAX_HEALTH))
    else Ok(ReceivedPlayer(
      values[NAME].s, values[CLAN_TAG].s, values[AVATAR_ID].i, values[SHIP_ID].i,
      values[PLAYER_ID].i, values[TEAM_ID].i, values[MAX_HEALTH].i, Raw(values, show)))
  }

  /** A property map makes a player exactly when the eight properties are there with the right kinds. */
  lemma PlayerOfSucceeds(values: map<i64, Value>, show: Value -> string)
    ensures PlayerOf(values, show).Ok? <==>
      (forall id :: id in {AVATAR_ID, NAME, CLAN_TAG, SHIP_ID, PLAYER_ID, SKIN_ID, TEAM_ID, MAX_HEALTH} ==> id in values)
      && values[NAME].String? && values[CLAN_TAG].String?
      && values[AVATAR_ID].I64? && values[SHIP_ID].I64? && values[PLAYER_ID].I64?
      && values[TEAM_ID].I64? && values[MAX_HEALTH].I64?
    ensures PlayerOf(values, show).Ok? ==>
      var p := PlayerOf(values, show).value;
      String(p.username) == values[NAME] && String(p.clan) == values[CLAN_TAG]
      && I64(p.avatarid) == values[AVATAR_ID] && I64(p.shipid) == values[SHIP_ID]
      && I64(p.playerid) == values[PLAYER_ID] && I64(p.teamid) == values[TEAM_ID]
      && I64(p.health) == values[MAX_HEALTH]
      && p.raw.Keys == values.Keys && forall k :: k in values ==> p.raw[k] == show(values[k])
  {
  }

  /** The loop of the source that fills `raw`. */
  method DumpRaw(values: map<i64, Value>, show: Value -> string) returns (raw: map<i64, string>)
    ensures raw == Raw(values, show)
  {
    raw := map[];
    var todo := values.Keys;
    while todo != {}
      invariant todo <= values.Keys
      invariant raw.Keys == values.Keys - todo
      invariant forall k :: k in raw ==> raw[k] == show(values[k])
      decreases todo
    {
      var k :| k in todo;
      raw := raw[k := show(values[k])];
      todo := todo - {k};
    }
  }

  /** The body of the players loop after `values` is filled. */
  method PlayerFromValues(values: map<i64, Value>, show: Value -> string)
    returns (r: Result<ReceivedPlayer, DecodeError>)
    ensures r == PlayerOf(values, show)
  {
    if AVATAR_ID !in values { return Err(MissingProperty(AVATAR_ID)); }
    if NAME !in values { return Err(MissingProperty(NAME)); }
    if !values[NAME].String? { return Err(WrongPropertyKind(NAME)); }
    if CLAN_TAG !in values { return Err(MissingProperty(CLAN_TAG)); }
    if !values[CLAN_TAG].String? { return Err(WrongPropertyKind(CLAN_TAG)); }
    if SHIP_ID !in values { return Err(MissingProperty(SHIP_ID)); }
    if PLAYER_ID !in values { return Err(MissingProperty(PLAYER_ID)); }
    if SKIN_ID !in values { return Err(MissingProperty(SKIN_ID)); }
    if TEAM_ID !in values { return Err(MissingProperty(TEAM_ID)); }
    if MAX_HEALTH !in values { return Err(MissingProperty(MAX_HEALTH)); }
    var raw := DumpRaw(values, show);
    if !values[AVATAR_ID].I64? { return Err(WrongPropertyKind(AVATAR_ID)); }
    if !values[SHIP_ID].I64? { return Err(WrongPropertyKind(SHIP_ID)); }
    if !values[PLAYER_ID].I64? { return Err(WrongPropertyKind(PLAYER_ID)); }
    if !values[TEAM_ID].I64? { return Err(WrongPropertyKind(TEAM_ID)); }
    if !values[MAX_HEALTH].I64? { return Err(WrongPropertyKind(MAX_HEALTH)); }
    return Ok(ReceivedPlayer(
      values[NAME].s, values[CLAN_TAG].s, values[AVATAR_ID].i, values[SHIP_ID].i,
      values[PLAYER_ID].i, values[TEAM_ID].i, values[MAX_HEALTH].i, raw));
  }

  /** One element of the players list: its property map, then its record. */
  function PlayerOfElement(player: Value, show: Value -> string): Result<ReceivedPlayer, DecodeError>
  {
    var values :- Properties(if player.List? then player.items else [], map[]);
    PlayerOf(values, show)
  }

  function PlayerStep(show: Value -> string): Value -> Result<ReceivedPlayer, DecodeError>
  {
    player => PlayerOfElement(player, show)
  }

  /** `players_out`: one record per element when the (converted) value is a list, none otherwise. */
  function Players(value: Value, show: Value -> string): Result<seq<ReceivedPlayer>, DecodeError>
  {
    if value.List? then TryMap(value.items, PlayerStep(show), []) else Ok([])
  }

  /** The players loop of the source. */
  method CollectPlayers(value: Value, show: Value -> string) returns (r: Result<seq<ReceivedPlayer>, DecodeError>)
    ensures r == Players(value, show)
  {
    var playersOut: seq<ReceivedPlayer> := [];
    if !value.List? {
      return Ok(playersOut);
    }
    var players := value.items;
    var j := 0;
    while j < |players|
      invariant 0 <= j <= |players|
      invariant Players(value, show) == TryMap(players[j..], PlayerStep(show), playersOut)
    {
      var player := players[j];
      assert players[j..][0] == player && players[j..][1..] == players[j + 1..];
      var values := CollectProperties(player);
      if values.Err? {
        return Err(values.error);
      }
      var record := PlayerFromValues(values.value, show);
      if record.Err? {
        return Err(record.error);
      }
      playersOut := playersOut + [record.value];
      j := j + 1;
    }
    return Ok(playersOut);
  }

  /** Every element of the players list gives one record, in order; a value that is not a list gives none. */
  lemma PlayersOnePerElement(value: Value, show: Value -> string)
    ensures !value.List? ==> Players(value, show) == Ok([])
    ensures value.List? ==>
      (Players(value, show).Ok? <==> forall i :: 0 <= i < |value.items| ==> PlayerOfElement(value.items[i], show).Ok?)
    ensures value.List? && Players(value, show).Ok? ==>
      |Players(value, show).value| == |value.items|
      && forall i :: 0 <= i < |value.items| ==>
           Players(value, show).value[i] == PlayerOfElement(value.items[i], show).value
  {
    if value.List? {
      TryMapSucceeds(value.items, PlayerStep(show));
    }
  }

  // ------------------------------------------------------------ key sets

  /** The key a property element contributes: the first item of a tuple of at least two, when it is an i64. */
  function PropertyKey(e: Value): Option<i64>
  {
    if e.Tuple? && |e.items| >= 2 && e.items[0].I64? then Some(e.items[0].i) else None
  }

  /**
   * The property map is read exactly when every tuple has an i64 key and a
   * value; it then holds the keys collected before and the key of every tuple.
   */
  lemma {:induction false} PropertiesKeys(elements: seq<Value>, acc: map<i64, Value>)
    ensures Properties(elements, acc).Ok? <==>
      forall i :: 0 <= i < |elements| ==> !elements[i].Tuple? || PropertyKey(elements[i]).Some?
    ensures Properties(elements, acc).Ok? ==>
      forall k :: k in Properties(elements, acc).value <==>
        k in acc || exists i :: 0 <= i < |elements| && PropertyKey(elements[i]) == Some(k)
    decreases |elements|
  {
    if elements != [] {
      var e, rest := elements[0], elements[1..];
      assert forall i :: 0 <= i < |rest| ==> rest[i] == elements[i + 1];
      var next := if PropertyKey(e).Some? then acc[e.items[0].i := e.items[1]] else acc;
      PropertiesKeys(rest, next);
      if !e.Tuple? || PropertyKey(e).Some? {
        assert Properties(elements, acc) == Properties(rest, next);
        if Properties(elements, acc).Ok? {
          forall k ensures k in Properties(elements, acc).value <==>
            k in acc || exists i :: 0 <= i < |elements| && PropertyKey(elements[i]) == Some(k)
          {
            if exists i :: 0 <= i < |rest| && PropertyKey(rest[i]) == Some(k) {
              var i :| 0 <= i < |rest| && PropertyKey(rest[i]) == Some(k);
              assert PropertyKey(elements[i + 1]) == Some(k);
            }
            if exists i :: 0 <= i < |elements| && PropertyKey(elements[i]) == Some(k) {
              var i :| 0 <= i < |elements| && PropertyKey(elements[i]) == Some(k);
              if i > 0 { assert PropertyKey(rest[i - 1]) == Some(k); }
            }
          }
        } else {
          var i :| 0 <= i < |rest| && !(!rest[i].Tuple? || PropertyKey(rest[i]).Some?);
          assert elements[i + 1] == rest[i];
        }
      }
    }
  }

  /** An entry of the snapshot dictionary that reads: an i64 key and a list of snapshots. */
  predicate EntryReads(entry: (HashableValue, Value), show: Value -> string)
  {
    entry.0.HI64? && entry.1.List? && SnapshotList(entry.1.items, show).Ok?
  }

  /**
   * The snapshot dictionary is read exactly when every entry has an i64 key
   * and a list that reads; the map then holds the keys collected before and
   * every entry's key.
   */
  lemma {:induction false} SnapshotsKeys(d: seq<(HashableValue, Value)>, show: Value -> string, acc: map<i64, seq<Snapshot>>)
    ensures Snapshots(d, show, acc).Ok? <==> forall i :: 0 <= i < |d| ==> EntryReads(d[i], show)
    ensures Snapshots(d, show, acc).Ok? ==>
      forall k :: k in Snapshots(d, show, acc).value <==> k in acc || exists i :: 0 <= i < |d| && d[i].0 == HI64(k)
    decreases |d|
  {
    if d != [] {
      var rest := d[1..];
      assert forall i :: 0 <= i < |rest| ==> rest[i] == d[i + 1];
      if EntryReads(d[0], show) {
        var next := acc[d[0].0.i := SnapshotList(d[0].1.items, show).value];
        assert Snapshots(d, show, acc) == Snapshots(rest, show, next);
        SnapshotsKeys(rest, show, next);
        if Snapshots(d, show, acc).Ok? {
          forall k ensures k in Snapshots(d, show, acc).value <==> k in acc || exists i :: 0 <= i < |d| && d[i].0 == HI64(k)
          {
            if exists i :: 0 <= i < |rest| && rest[i].0 == HI64(k) {
              var i :| 0 <= i < |rest| && rest[i].0 == HI64(k);
              assert d[i + 1].0 == HI64(k);
            }
            if exists i :: 0 <= i < |d| && d[i].0 == HI64(k) {
              var i :| 0 <= i < |d| && d[i].0 == HI64(k);
              if i > 0 { assert rest[i - 1].0 == HI64(k); }
            }
          }
        } else {
          var i :| 0 <= i < |rest| && !EntryReads(rest[i], show);
          assert d[i + 1] == rest[i];
        }
      }
    }
  }

  // ------------------------------------------------------------ values

  /** Element `i` is a property tuple and no later element has its key. */
  predicate LastProperty(elements: seq<Value>, i: nat)
    requires i < |elements|
  {
    PropertyKey(elements[i]).Some? && forall j :: i < j < |elements| ==> PropertyKey(elements[j]) != PropertyKey(elements[i])
  }

  /**
   * A property map that reads holds, under each tuple's key, the second item
   * of the last tuple with that key; a key no tuple names keeps its earlier value.
   */
  lemma {:induction false} PropertiesLastWriteWins(elements: seq<Value>, acc: map<i64, Value>)
    ensures Properties(elements, acc).Ok? ==>
      forall i :: 0 <= i < |elements| && LastProperty(elements, i) ==>
        PropertyKey(elements[i]).value in Properties(elements, acc).value
        && Properties(elements, acc).value[PropertyKey(elements[i]).value] == elements[i].items[1]
    ensures Properties(elements, acc).Ok? ==>
      forall k :: k in acc && (forall i :: 0 <= i < |elements| ==> PropertyKey(elements[i]) != Some(k)) ==>
        k in Properties(elements, acc).value && Properties(elements, acc).value[k] == acc[k]
    decreases |elements|
  {
    if elements != [] {
      var e, rest := elements[0], elements[1..];
      assert forall j :: 0 <= j < |rest| ==> rest[j] == elements[j + 1];
      var next := if PropertyKey(e).Some? then acc[e.items[0].i := e.items[1]] else acc;
      if !e.Tuple? || PropertyKey(e).Some? {
        assert Properties(elements, acc) == Properties(rest, next);
        PropertiesLastWriteWins(rest, next);
        if Properties(elements, acc).Ok? {
          var m := Properties(elements, acc).value;
          forall i | 0 <= i < |elements| && LastProperty(elements, i)
            ensures PropertyKey(elements[i]).value in m && m[PropertyKey(elements[i]).value] == elements[i].items[1]
          {
            if i == 0 {
              var k := PropertyKey(e).value;
              assert forall j :: 0 <= j < |rest| ==> PropertyKey(rest[j]) != Some(k) by {
                forall j | 0 <= j < |rest| ensures PropertyKey(rest[j]) != Some(k) {
                  assert 0 < j + 1 < |elements|;
                }
              }
            } else {
              assert LastProperty(rest, i - 1) by {
                forall j | i - 1 < j < |rest| ensures PropertyKey(rest[j]) != PropertyKey(rest[i - 1]) {
                  assert i < j + 1 < |elements|;
                }
              }
            }
          }
          forall k | k in acc && (forall i :: 0 <= i < |elements| ==> PropertyKey(elements[i]) != Some(k))
            ensures k in m && m[k] == acc[k]
          {
            assert PropertyKey(elements[0]) != Some(k);
            assert forall j :: 0 <= j < |rest| ==> PropertyKey(rest[j]) != Some(k) by {
              forall j | 0 <= j < |rest| ensures PropertyKey(rest[j]) != Some(k) {
                assert PropertyKey(elements[j + 1]) != Some(k);
              }
            }
          }
        }
      }
    }
  }

  /** Entry `i` has an i64 key and no later entry has that key. */
  predicate LastEntry(d: seq<(HashableValue, Value)>, i: nat)
    requires i < |d|
  {
    d[i].0.HI64? && forall j :: i < j < |d| ==> d[j].0 != d[i].0
  }

  /**
   * A snapshot dictionary that reads holds, under each entry's key, the
   * snapshot list of the last entry with that key; a key no entry names
   * keeps its earlier list.
   */
  lemma {:induction false} SnapshotsLastWriteWins(d: seq<(HashableValue, Value)>, show: Value -> string, acc: map<i64, seq<Snapshot>>)
    ensures Snapshots(d, show, acc).Ok? ==>
      forall i :: 0 <= i < |d| && LastEntry(d, i) ==>
        d[i].0.i in Snapshots(d, show, acc).value && d[i].1.List?
        && SnapshotList(d[i].1.items, show) == Ok(Snapshots(d, show, acc).value[d[i].0.i])
    ensures Snapshots(d, show, acc).Ok? ==>
      forall k :: k in acc && (forall i :: 0 <= i < |d| ==> d[i].0 != HI64(k)) ==>
        k in Snapshots(d, show, acc).value && Snapshots(d, show, acc).value[k] == acc[k]
    decreases |d|
  {
    if d != [] && EntryReads(d[0], show) {
      var rest := d[1..];
      assert forall j :: 0 <= j < |rest| ==> rest[j] == d[j + 1];
      var next := acc[d[0].0.i := SnapshotList(d[0].1.items, show).value];
      assert Snapshots(d, show, acc) == Snapshots(rest, show, next);
      SnapshotsLastWriteWins(rest, show, next);
      if Snapshots(d, show, acc).Ok? {
        var m := Snapshots(d, show, acc).value;
        forall i | 0 <= i < |d| && LastEntry(d, i)
          ensures d[i].0.i in m && d[i].1.List? && SnapshotList(d[i].1.items, show) == Ok(m[d[i].0.i])
        {
          if i == 0 {
            var k := d[0].0.i;
            assert forall j :: 0 <= j < |rest| ==> rest[j].0 != HI64(k) by {
              forall j | 0 <= j < |rest| ensures rest[j].0 != HI64(k) {
                assert 0 < j + 1 < |d|;
              }
            }
          } else {
            assert LastEntry(rest, i - 1) by {
              forall j | i - 1 < j < |rest| ensures rest[j].0 != rest[i - 1].0 {
                assert i < j + 1 < |d|;
              }
            }
          }
        }
        forall k | k in acc && (forall i :: 0 <= i < |d| ==> d[i].0 != HI64(k))
          ensures k in m && m[k] == acc[k]
        {
          assert d[0].0 != HI64(k);
          assert forall j :: 0 <= j < |rest| ==> rest[j].0 != HI64(k) by {
            forall j | 0 <= j < |rest| ensures rest[j].0 != HI64(k) {
              assert d[j + 1].0 != HI64(k);
            }
          }
        }
      }
    }
  }
}
