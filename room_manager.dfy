/** The room store: rooms live in a key-value store under `room:<code>`,
    each write replacing the whole record and resetting a 24-hour expiry.
    The store is a map from keys to (room, expiry) entries; time is a
    parameter `now` in seconds, and a key is live while `now` is before its
    expiry. */
module RoomManager {
  import opened Types
  import opened TeamBags
  import ShuffleService

  const ROOM_PREFIX: string := "room:"
  /** 24 hours, in seconds. */
  const ROOM_EXPIRY: int := 24 * 60 * 60
  const CODE_ALPHABET: string := "0123456789ABCDEFGHIJKLMNOPQRSTUVWXYZ"
  const CODE_LENGTH: nat := 6

  /** A room code as the code generator produces it. */
  predicate ValidCode(code: string) {
    |code| == CODE_LENGTH && forall i :: 0 <= i < |code| ==> code[i] in CODE_ALPHABET
  }

  function RoomKey(code: string): (key: string)
    ensures |key| == |ROOM_PREFIX| + |code| && key[..|ROOM_PREFIX|] == ROOM_PREFIX
  {
    ROOM_PREFIX + code
  }

  /** Distinct codes never share a key. */
  lemma RoomKeyInjective(a: string, b: string)
    ensures RoomKey(a) == RoomKey(b) <==> a == b
  {
    if RoomKey(a) == RoomKey(b) {
      assert a == RoomKey(a)[|ROOM_PREFIX|..];
      assert b == RoomKey(b)[|ROOM_PREFIX|..];
    }
  }

  // ------------------------------------------------------------------ store

  /** A stored record: the room (its JSON form) and the instant it expires. */
  datatype Entry = Entry(room: Room, expiresAt: int)

  type Store = map<string, Entry>

  /** `exists` and `get`: a key counts only until it expires. */
  predicate Live(s: Store, key: string, now: int) {
    key in s && now < s[key].expiresAt
  }

  /** `getRoom` as a function of the store. */
  function Fetch(s: Store, code: string, now: int): (r: Option<Room>)
    ensures r.Some? <==> Live(s, RoomKey(code), now)
  {
    var key := RoomKey(code);
    if Live(s, key, now) then Some(s[key].room) else None
  }

  /** `saveRoom` as a function of the store: `setex` with the room's key and
      the full expiry. */
  function Put(s: Store, room: Room, now: int): Store {
    s[RoomKey(room.code) := Entry(room, now + ROOM_EXPIRY)]
  }

  /** Every participant is filed under its own id. */
  predicate WellKeyed(r: Room) {
    forall id :: id in r.participants ==> r.participants[id].id == id
  }

  /** What every operation keeps: each record sits under its own room's key,
      with a generated code and participants filed by id. */
  predicate StoreValid(s: Store) {
    forall key :: key in s ==>
      key == RoomKey(s[key].room.code) && ValidCode(s[key].room.code) && WellKeyed(s[key].room)
  }

  /** A saved room is read back unchanged until it expires, and not after. */
  lemma PutThenFetch(s: Store, room: Room, now: int, t: int)
    requires now <= t
    ensures t < now + ROOM_EXPIRY ==> Fetch(Put(s, room, now), room.code, t) == Some(room)
    ensures t >= now + ROOM_EXPIRY ==> Fetch(Put(s, room, now), room.code, t) == None
  {
  }

  /** Saving one room leaves every other room as it was, expiry included. */
  lemma PutKeepsOthers(s: Store, room: Room, now: int, code: string, t: int)
    requires code != room.code
    ensures Fetch(Put(s, room, now), code, t) == Fetch(s, code, t)
  {
    RoomKeyInjective(code, room.code);
  }

  /** A record read from a valid store belongs to the requested code. */
  lemma FetchValid(s: Store, code: string, now: int)
    requires StoreValid(s) && Fetch(s, code, now).Some?
    ensures Fetch(s, code, now).value.code == code
    ensures ValidCode(code) && WellKeyed(Fetch(s, code, now).value)
  {
    var key := RoomKey(code);
    RoomKeyInjective(code, s[key].room.code);
  }

  /** Saving a well-formed room keeps the store valid. */
  lemma PutValid(s: Store, room: Room, now: int)
    requires StoreValid(s) && ValidCode(room.code) && WellKeyed(room)
    ensures StoreValid(Put(s, room, now))
  {
  }

  // ------------------------------------------------------------- room edits

  /** The room `createRoom` stores. */
  function NewRoom(code: string, hostSocketId: string): (r: Room)
    ensures r.code == code && r.hostSocketId == hostSocketId
    ensures r.participants == map[] && r.teams == None && !r.isShuffled
    ensures r.shuffleConfig.numTeams == 2 && !r.shuffleConfig.balanceGender
  {
    Room(code, hostSocketId, map[], ShuffleConfig(2, false, 0.7, 0.3), None, false)
  }

  /** `participants.set(participant.id, participant)`. */
  function Join(r: Room, p: Participant): Room {
    r.(participants := r.participants[p.id := p])
  }

  /** `participants.delete(participantId)`. */
  function Leave(r: Room, id: string): Room {
    r.(participants := r.participants - {id})
  }

  /** Joining files the participant under its id, replacing any earlier entry
      with that id, and touches nothing else. */
  lemma JoinSpec(r: Room, p: Participant)
    ensures Join(r, p).participants.Keys == r.participants.Keys + {p.id}
    ensures Join(r, p).participants[p.id] == p
    ensures forall id :: id in r.participants && id != p.id ==> Join(r, p).participants[id] == r.participants[id]
    ensures Join(r, p).(participants := r.participants) == r
    ensures WellKeyed(r) ==> WellKeyed(Join(r, p))
    ensures p.id in r.participants ==> |Join(r, p).participants| == |r.participants|
    ensures p.id !in r.participants ==> |Join(r, p).participants| == |r.participants| + 1
  {
  }

  /** Leaving drops exactly that id; an id that is not there changes nothing. */
  lemma LeaveSpec(r: Room, id: string)
    ensures Leave(r, id).participants.Keys == r.participants.Keys - {id}
    ensures forall other :: other in Leave(r, id).participants ==> Leave(r, id).participants[other] == r.participants[other]
    ensures Leave(r, id).(participants := r.participants) == r
    ensures WellKeyed(r) ==> WellKeyed(Leave(r, id))
    ensures id !in r.participants ==> Leave(r, id) == r
  {
  }

  /** Joining then leaving restores a room the participant was not in. */
  lemma JoinThenLeave(r: Room, p: Participant)
    requires p.id !in r.participants
    ensures Leave(Join(r, p), p.id) == r
  {
    assert Leave(Join(r, p), p.id).participants == r.participants;
  }

  /** A `Partial<ShuffleConfig>`: each field may be absent. */
  datatype PartialConfig = PartialConfig(
    numTeams: Option<int>,
    balanceGender: Option<bool>,
    maxDiversityWeight: Option<real>,
    genderBalanceWeight: Option<real>)

  function Pick<T>(given: Option<T>, current: T): T {
    if given.Some? then given.value else current
  }

  /** `{ ...current, ...given }`. */
  function MergeConfig(current: ShuffleConfig, given: PartialConfig): ShuffleConfig {
    ShuffleConfig(
      Pick(given.numTeams, current.numTeams),
      Pick(given.balanceGender, current.balanceGender),
      Pick(given.maxDiversityWeight, current.maxDiversityWeight),
      Pick(given.genderBalanceWeight, current.genderBalanceWeight))
  }

  /** Present fields win, absent fields keep their value; no range check,
      so a team count of zero or less is taken as given; merging the same
      partial twice is merging it once. */
  lemma MergeConfigSpec(current: ShuffleConfig, given: PartialConfig)
    ensures given.numTeams.Some? ==> MergeConfig(current, given).numTeams == given.numTeams.value
    ensures given.numTeams.None? ==> MergeConfig(current, given).numTeams == current.numTeams
    ensures given.balanceGender.Some? ==> MergeConfig(current, given).balanceGender == given.balanceGender.value
    ensures given.balanceGender.None? ==> MergeConfig(current, given).balanceGender == current.balanceGender
    ensures given.maxDiversityWeight.Some? ==> MergeConfig(current, given).maxDiversityWeight == given.maxDiversityWeight.value
    ensures given.maxDiversityWeight.None? ==> MergeConfig(current, given).maxDiversityWeight == current.maxDiversityWeight
    ensures given.genderBalanceWeight.Some? ==> MergeConfig(current, given).genderBalanceWeight == given.genderBalanceWeight.value
    ensures given.genderBalanceWeight.None? ==> MergeConfig(current, given).genderBalanceWeight == current.genderBalanceWeight
    ensures MergeConfig(MergeConfig(current, given), given) == MergeConfig(current, given)
    ensures MergeConfig(current, PartialConfig(None, None, None, None)) == current
  {
  }

  /** `room.teams = result.teams; room.isShuffled = true`. The scores are
      not part of the room. */
  function Jumbled(r: Room, a: ShuffleService.Outcome): Room
    requires a.Assigned?
  {
    r.(teams := Some(a.assignment.teams), isShuffled := true)
  }

  /** `order` lists the participants of `m` once each. */
  predicate Lists(order: seq<Participant>, m: map<string, Participant>) {
    && |order| == |m|
    && (forall i :: 0 <= i < |order| ==> order[i].id in m && m[order[i].id] == order[i])
    && (forall i, j :: 0 <= i < j < |order| ==> order[i].id != order[j].id)
  }

  /** Published on the room's update channel. */
  datatype Event =
    | ParticipantJoined(participant: Participant)
    | ParticipantLeft(id: string)
    | ShuffleComplete(teams: seq<Team>, diversityScore: Score, genderBalanceScore: Score)

  /** How an asynchronous operation settles: with a value, or rejected by
      an exception thrown inside it. */
  datatype Completion = Returned(ok: bool) | Rejected

  // ------------------------------------------------------------- the class

  class RoomManager {
    var store: Store
    /** Every message published, with its room code, oldest first. */
    ghost var published: seq<(string, Event)>

    ghost predicate Valid()
      reads this
    {
      StoreValid(store)
    }

    constructor(initial: Store)
      requires StoreValid(initial)
      ensures Valid() && store == initial && published == []
    {
      store := initial;
      published := [];
    }

    /** The two `forEach` copies between the participant Map and the JSON
        object: every entry is carried over. */
    static method CopyParticipants(from: map<string, Participant>) returns (to: map<string, Participant>)
      ensures to == from
    {
      to := map[];
      var rest := from.Keys;
      while rest != {}
        invariant rest <= from.Keys
        invariant to.Keys == from.Keys - rest
        invariant forall k :: k in to ==> to[k] == from[k]
        decreases |rest|
      {
        var k :| k in rest;
        to := to[k := from[k]];
        rest := rest - {k};
      }
    }

    /** The record under the room's key, if it has not expired. Reading does
        not renew the expiry. */
    method GetRoom(roomCode: string, now: int) returns (r: Option<Room>)
      ensures r == Fetch(store, roomCode, now)
    {
      var key := RoomKey(roomCode);
      if !(key in store && now < store[key].expiresAt) {
        return None;
      }
      var parsed := store[key].room;
      var participants := CopyParticipants(parsed.participants);
      r := Some(parsed.(participants := participants));
    }

    /** `exists` on the room's key returned 1. */
    method RoomExists(roomCode: string, now: int) returns (b: bool)
      ensures b <==> Live(store, RoomKey(roomCode), now)
      ensures b <==> Fetch(store, roomCode, now).Some?
    {
      var key := RoomKey(roomCode);
      b := key in store && now < store[key].expiresAt;
    }

    /** Write the whole room under its key with a fresh expiry. */
    method SaveRoom(room: Room, now: int)
      requires Valid() && ValidCode(room.code) && WellKeyed(room)
      modifies this
      ensures Valid()
      ensures store == Put(old(store), room, now)
      ensures published == old(published)
    {
      var participantsObj := CopyParticipants(room.participants);
      PutValid(store, room, now);
      store := store[RoomKey(room.code) := Entry(room.(participants := participantsObj), now + ROOM_EXPIRY)];
    }

    /** Store a fresh room under `code`, overwriting any record already
        there (`code` stands for the generated one). */
    method CreateRoom(hostSocketId: string, code: string, now: int) returns (c: string)
      requires Valid() && ValidCode(code)
      modifies this
      ensures Valid()
      ensures c == code
      ensures store == Put(old(store), NewRoom(code, hostSocketId), now)
      ensures published == old(published)
    {
      var room := NewRoom(code, hostSocketId);
      SaveRoom(room, now);
      return code;
    }

    method AddParticipant(roomCode: string, participant: Participant, now: int) returns (ok: bool)
      requires Valid()
      modifies this
      ensures Valid()
      ensures ok <==> Fetch(old(store), roomCode, now).Some?
      ensures !ok ==> store == old(store) && published == old(published)
      ensures ok ==> store == Put(old(store), Join(Fetch(old(store), roomCode, now).value, participant), now)
      ensures ok ==> published == old(published) + [(roomCode, ParticipantJoined(participant))]
    {
      var room := GetRoom(roomCode, now);
      if room.None? {
        return false;
      }
      FetchValid(store, roomCode, now);
      var updated := Join(room.value, participant);
      SaveRoom(updated, now);
      published := published + [(roomCode, ParticipantJoined(participant))];
      return true;
    }

    /** Removing an id the room does not hold still succeeds and still
        re-saves, which renews the expiry. */
    method RemoveParticipant(roomCode: string, participantId: string, now: int) returns (ok: bool)
      requires Valid()
      modifies this
      ensures Valid()
      ensures ok <==> Fetch(old(store), roomCode, now).Some?
      ensures !ok ==> store == old(store) && published == old(published)
      ensures ok ==> store == Put(old(store), Leave(Fetch(old(store), roomCode, now).value, participantId), now)
      ensures ok ==> published == old(published) + [(roomCode, ParticipantLeft(participantId))]
    {
      var room := GetRoom(roomCode, now);
      if room.None? {
        return false;
      }
      FetchValid(store, roomCode, now);
      var updated := Leave(room.value, participantId);
      SaveRoom(updated, now);
      published := published + [(roomCode, ParticipantLeft(participantId))];
      return true;
    }

    method UpdateShuffleConfig(roomCode: string, config: PartialConfig, now: int) returns (ok: bool)
      requires Valid()
      modifies this
      ensures Valid()
      ensures ok <==> Fetch(old(store), roomCode, now).Some?
      ensures !ok ==> store == old(store)
      ensures ok ==> store == Put(old(store),
        Fetch(old(store), roomCode, now).value.(shuffleConfig := MergeConfig(Fetch(old(store), roomCode, now).value.shuffleConfig, config)), now)
      ensures published == old(published)
    {
      var room := GetRoom(roomCode, now);
      if room.None? {
        return false;
      }
      FetchValid(store, roomCode, now);
      var updated := room.value.(shuffleConfig := MergeConfig(room.value.shuffleConfig, config));
      SaveRoom(updated, now);
      return true;
    }

    /** Partition the room's participants and store the teams. `order` is
        the room's participants after the random reordering. When the
        partitioning throws (a team count below one, or a grouping key that
        names an inherited object property) the call is rejected and nothing
        is saved or published; otherwise the room stores exactly the teams
        `Shuffled` computes, and their scores are published. */
    method ExecuteJumble(roomCode: string, order: seq<Participant>, now: int)
      returns (res: Completion)
      requires Valid()
      requires Fetch(store, roomCode, now).Some? ==> Lists(order, Fetch(store, roomCode, now).value.participants)
      modifies this
      ensures Valid()
      ensures Fetch(old(store), roomCode, now).None? ==>
        res == Returned(false) && store == old(store) && published == old(published)
      ensures Fetch(old(store), roomCode, now).Some? && |Fetch(old(store), roomCode, now).value.participants| == 0 ==>
        res == Returned(false) && store == old(store) && published == old(published)
      ensures Fetch(old(store), roomCode, now).Some? && |Fetch(old(store), roomCode, now).value.participants| > 0 ==>
        var room := Fetch(old(store), roomCode, now).value;
        var outcome := ShuffleService.Shuffled(order, room.shuffleConfig);
        && ShuffleService.ShuffleResult(order, order, room.shuffleConfig, outcome)
        && (outcome.Threw? ==>
              res == Rejected && store == old(store) && published == old(published))
        && (outcome.Assigned? ==>
              && res == Returned(true)
              && store == Put(old(store), Jumbled(room, outcome), now)
              && published == old(published) + [(roomCode, ShuffleComplete(
                   outcome.assignment.teams, outcome.assignment.diversityScore, outcome.assignment.genderBalanceScore))])
    {
      var room := GetRoom(roomCode, now);
      if room.None? {
        return Returned(false);
      }
      FetchValid(store, roomCode, now);
      var participants := order;
      if |participants| == 0 {
        return Returned(false);
      }
      var result := ShuffleService.Shuffle(participants, order, room.value.shuffleConfig);
      if result.Threw? {
        return Rejected;
      }
      var updated := Jumbled(room.value, result);
      SaveRoom(updated, now);
      published := published + [(roomCode, ShuffleComplete(
        result.assignment.teams, result.assignment.diversityScore, result.assignment.genderBalanceScore))];
      return Returned(true);
    }

    /** `del` on the room's key: true iff a live record was removed; the key
        is gone afterwards either way. */
    method DeleteRoom(roomCode: string, now: int) returns (ok: bool)
      requires Valid()
      modifies this
      ensures Valid()
      ensures ok <==> Fetch(old(store), roomCode, now).Some?
      ensures store == old(store) - {RoomKey(roomCode)}
      ensures Fetch(store, roomCode, now) == None
      ensures published == old(published)
    {
      var key := RoomKey(roomCode);
      ok := key in store && now < store[key].expiresAt;
      store := store - {key};
    }
  }

  /** Creating, joining and leaving: after a participant joins a fresh room
      and leaves again, reading the room back gives the fresh room. */
  lemma CreateJoinLeave(s: Store, code: string, host: string, p: Participant, t0: int, t1: int, t2: int, t3: int)
    requires t0 <= t1 <= t2 <= t3 && t1 < t0 + ROOM_EXPIRY && t2 < t1 + ROOM_EXPIRY && t3 < t2 + ROOM_EXPIRY
    ensures
      var s1 := Put(s, NewRoom(code, host), t0);
      var s2 := Put(s1, Join(Fetch(s1, code, t1).value, p), t1);
      var s3 := Put(s2, Leave(Fetch(s2, code, t2).value, p.id), t2);
      Fetch(s3, code, t3) == Some(NewRoom(code, host))
  {
    var s1 := Put(s, NewRoom(code, host), t0);
    PutThenFetch(s, NewRoom(code, host), t0, t1);
    var r1 := Join(NewRoom(code, host), p);
    var s2 := Put(s1, r1, t1);
    PutThenFetch(s1, r1, t1, t2);
    JoinThenLeave(NewRoom(code, host), p);
    PutThenFetch(s2, Leave(r1, p.id), t2, t3);
  }
}
