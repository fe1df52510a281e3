/** The records shared by the partitioning engine and the room store. */
module Types {

  datatype Option<T> = None | Some(value: T)

  /** A participant of a room. Gender is free text at run time (the
      four-valued type is not checked on the wire), so it is a string here. */
  datatype Participant = Participant(
    id: string,
    name: string,
    college: string,
    gender: string,
    socketId: string)

  /** A team of one partitioning run: its ordinal, palette entry and members. */
  datatype Team = Team(id: int, name: string, color: string, members: seq<Participant>)

  /** Per-room tunables. The weights are reals; only `genderBalanceWeight > 0.5`
      is ever consulted. */
  datatype ShuffleConfig = ShuffleConfig(
    numTeams: int,
    balanceGender: bool,
    maxDiversityWeight: real,
    genderBalanceWeight: real)

  /** A JavaScript number that is either an integer or NaN. */
  datatype Score = Num(value: int) | NaN

  datatype TeamAssignment = TeamAssignment(
    teams: seq<Team>,
    diversityScore: Score,
    genderBalanceScore: Score)

  /** A room as `getRoom` hands it out (creation time not modelled). */
  datatype Room = Room(
    code: string,
    hostSocketId: string,
    participants: map<string, Participant>,
    shuffleConfig: ShuffleConfig,
    teams: Option<seq<Team>>,
    isShuffled: bool)

  const TEAM_NAMES: seq<string> := [
    "Cosmic Voyagers",
    "Neon Ninjas",
    "Quantum Questers",
    "Cyber Phoenixes",
    "Electric Eagles",
    "Mystic Mavericks",
    "Stellar Spirits",
    "Digital Dragons",
    "Hyper Hawks",
    "Aurora Avengers"
  ]

  const TEAM_COLORS: seq<string> := [
    "#00F0FF",
    "#FF006E",
    "#FFBE0B",
    "#00FF85",
    "#B537F2",
    "#FF4365",
    "#06FFA5",
    "#FFA400",
    "#5E17EB",
    "#FF00BD"
  ]

  /** The property names a plain object literal `{}` inherits from
      `Object.prototype`. Reading one of them from an otherwise empty object
      yields a function (for `__proto__`, the prototype object itself), so
      an object used as a dictionary already "has" these keys. */
  const PROTO := "__proto__"
  const INHERITED: set<string> := {
    "constructor", "hasOwnProperty", "isPrototypeOf", "propertyIsEnumerable",
    "toString", "toLocaleString", "valueOf", PROTO,
    "__defineGetter__", "__defineSetter__", "__lookupGetter__", "__lookupSetter__"
  }

  predicate Inherited(k: string) { k in INHERITED }

  function Size(t: Team): nat { |t.members| }

  /** Team `t` carries the palette entry of its own id (ids cycle after ten). */
  predicate Painted(t: Team) {
    t.id >= 0 && t.name == TEAM_NAMES[t.id % 10] && t.color == TEAM_COLORS[t.id % 10]
  }
}
