/**
 * The in-memory session store: session records with a variable map and a
 * flash message, and a manager that keeps an ordered list of them, hands out
 * fresh hexadecimal identifiers, looks sessions up with passive expiry and
 * removes them.  Time is an integer timestamp passed in as `now`, and the
 * random source is a supplied sequence of draws.
 */
module SessionStore {
  import opened Wrappers
  import opened Hex

  /** The failures the package reports as Go errors. */
  datatype Error =
    | NotFound          // no live session has the requested id
    | RandomReadFailed  // the random source could not fill the id buffer
    | CookieMissing     // the request carries no session cookie

  /** A flash message; the zero value has empty type and content. */
  datatype Message = Message(messageType: string, content: string)

  const NoMessage := Message("", "")

  /** Number of random bytes behind each session id (twice as many hex digits). */
  const IdByteLength := 30

  class Session {
    const id: string
    const lifetime: int
    var vars: map<string, string>
    var message: Message

    constructor (id: string, lifetime: int)
      ensures this.id == id && this.lifetime == lifetime
      ensures vars == map[] && message == NoMessage
    {
      this.id := id;
      this.lifetime := lifetime;
      vars := map[];
      message := NoMessage;
    }

    /** The value stored under `key` and whether there is one; an absent key reads as `("", false)`. */
    function GetVar(key: string): (r: (string, bool))
      reads this
      ensures r.1 <==> key in vars
      ensures r.1 ==> r.0 == vars[key]
      ensures !r.1 ==> r.0 == ""
    {
      if key in vars then (vars[key], true) else ("", false)
    }

    method SetVar(key: string, value: string)
      modifies this`vars
      ensures GetVar(key) == (value, true)
      ensures forall k :: k != key ==> GetVar(k) == old(GetVar(k))
      ensures vars.Keys == old(vars.Keys) + {key}
    {
      vars := vars[key := value];
    }

    method SetMessage(messageType: string, content: string)
      modifies this`message
      ensures GetMessage() == Message(messageType, content)
    {
      message := Message(messageType, content);
    }

    /** The pending flash message; reading it leaves it in place. */
    function GetMessage(): (m: Message)
      reads this
      ensures m == message
    {
      message
    }
  }

  // ---------------------------------------------------------------------
  // The session list as a value

  predicate HasId(ss: seq<Session>, id: string) {
    exists i :: 0 <= i < |ss| && ss[i].id == id
  }

  /** The manager's invariant: no two sessions share an id. */
  predicate DistinctIds(ss: seq<Session>) {
    forall i, j :: 0 <= i < j < |ss| ==> ss[i].id != ss[j].id
  }

  /** The position of the first session with the given id, as the manager's scans find it. */
  function FindIndex(ss: seq<Session>, id: string): (r: Option<nat>)
    ensures r.Some? ==> r.value < |ss| && ss[r.value].id == id
    ensures r.Some? ==> forall j :: 0 <= j < r.value ==> ss[j].id != id
    ensures r.None? <==> !HasId(ss, id)
  {
    if ss == [] then None
    else if ss[0].id == id then Some(0)
    else
      match FindIndex(ss[1..], id)
      case None => None
      case Some(k) => Some(k + 1)
  }

  /** Order-preserving delete at a position. */
  function RemoveSessionIndex(s: seq<Session>, index: nat): (r: seq<Session>)
    requires index < |s|
    ensures |r| == |s| - 1
    ensures forall j :: 0 <= j < index ==> r[j] == s[j]
    ensures forall j :: index <= j < |r| ==> r[j] == s[j + 1]
    ensures multiset(r) + multiset{s[index]} == multiset(s)
  {
    assert s == s[..index] + [s[index]] + s[index + 1..];
    s[..index] + s[index + 1..]
  }

  /** Deleting one session of a list with distinct ids removes its id and keeps the rest distinct. */
  lemma RemoveSessionIndexDropsId(ss: seq<Session>, index: nat)
    requires index < |ss| && DistinctIds(ss)
    ensures DistinctIds(RemoveSessionIndex(ss, index))
    ensures !HasId(RemoveSessionIndex(ss, index), ss[index].id)
    ensures forall k :: 0 <= k < |ss| && k != index ==> HasId(RemoveSessionIndex(ss, index), ss[k].id)
  {
    var r := RemoveSessionIndex(ss, index);
    forall k | 0 <= k < |ss| && k != index
      ensures HasId(r, ss[k].id)
    {
      if k < index {
        assert r[k] == ss[k];
      } else {
        assert r[k - 1] == ss[k];
      }
    }
  }

  /** Appending a session whose id is not taken keeps the ids distinct. */
  lemma AppendFreshKeepsDistinct(ss: seq<Session>, s: Session)
    requires DistinctIds(ss) && !HasId(ss, s.id)
    ensures DistinctIds(ss + [s])
  {
    var r := ss + [s];
    forall i, j | 0 <= i < j < |r|
      ensures r[i].id != r[j].id
    {
      if j == |ss| {
        assert r[i] == ss[i];
      }
    }
  }

  // ---------------------------------------------------------------------
  // Session ids

  /**
   * Draws random bytes, encodes them in hex and retries while the id is
   * already taken.  `draws` are the successive outcomes of the random
   * source; a draw shorter or longer than `length` is a failed read, and
   * running out of draws is reported the same way.
   */
  function GenerateSessionId(ss: seq<Session>, length: nat, draws: seq<seq<Byte>>): (r: Result<string, Error>)
    ensures r.Ok? ==> |r.value| == 2 * length && IsLowerHex(r.value)
    ensures r.Ok? ==> !HasId(ss, r.value)
    ensures r.Err? ==> r.error == RandomReadFailed
    decreases |draws|
  {
    if draws == [] || |draws[0]| != length then Err(RandomReadFailed)
    else
      var id := EncodeToString(draws[0]);
      if FindIndex(ss, id).Some? then GenerateSessionId(ss, length, draws[1..])
      else Ok(id)
  }

  /** A draw that yields a usable id: a full read whose encoding no session holds. */
  predicate Usable(ss: seq<Session>, length: nat, draw: seq<Byte>) {
    |draw| == length && !HasId(ss, EncodeToString(draw))
  }

  /** A draw that is a full read but collides with an existing id, so the generator retries. */
  predicate Collides(ss: seq<Session>, length: nat, draw: seq<Byte>) {
    |draw| == length && HasId(ss, EncodeToString(draw))
  }

  /**
   * The generator returns `id` exactly when some draw is usable, encodes to
   * `id`, and every draw before it was a full read that collided.
   */
  lemma {:induction false} GenerateSessionIdPicksFirstUsable(ss: seq<Session>, length: nat, draws: seq<seq<Byte>>, id: string)
    ensures GenerateSessionId(ss, length, draws) == Ok(id) <==>
      exists i :: 0 <= i < |draws| && Usable(ss, length, draws[i]) && id == EncodeToString(draws[i])
        && forall j :: 0 <= j < i ==> Collides(ss, length, draws[j])
    decreases |draws|
  {
    if draws == [] || |draws[0]| != length {
    } else if !HasId(ss, EncodeToString(draws[0])) {
      if GenerateSessionId(ss, length, draws) == Ok(id) {
        assert Usable(ss, length, draws[0]);
      } else {
        forall i | 0 <= i < |draws| && Usable(ss, length, draws[i]) && id == EncodeToString(draws[i])
          ensures !(forall j :: 0 <= j < i ==> Collides(ss, length, draws[j]))
        {
          if i > 0 {
            assert !Collides(ss, length, draws[0]);
          }
        }
      }
    } else {
      var rest := draws[1..];
      GenerateSessionIdPicksFirstUsable(ss, length, rest, id);
      if GenerateSessionId(ss, length, draws) == Ok(id) {
        var i :| 0 <= i < |rest| && Usable(ss, length, rest[i]) && id == EncodeToString(rest[i])
          && forall j :: 0 <= j < i ==> Collides(ss, length, rest[j]);
        assert draws[i + 1] == rest[i];
        forall j | 0 <= j < i + 1
          ensures Collides(ss, length, draws[j])
        {
          if j > 0 {
            assert draws[j] == rest[j - 1];
          }
        }
      } else {
        forall i | 0 <= i < |draws| && Usable(ss, length, draws[i]) && id == EncodeToString(draws[i])
          ensures !(forall j :: 0 <= j < i ==> Collides(ss, length, draws[j]))
        {
          if i > 0 {
            assert rest[i - 1] == draws[i];
          }
        }
      }
    }
  }

  // ---------------------------------------------------------------------
  // Lookup and removal as values

  /** What an operation of the manager reports, with the session list it leaves behind. */
  datatype Outcome<T> = Outcome(result: Result<T, Error>, sessions: seq<Session>)

  /**
   * Looking up `id` at time `now`: a live match is returned; an expired
   * match is reported missing and deleted (passive expiry); no match is
   * reported missing and changes nothing.
   */
  function Lookup(ss: seq<Session>, id: string, now: int): (o: Outcome<Session>)
    ensures o.result.Ok? ==> o.result.value in ss && o.sessions == ss
    ensures o.result.Ok? ==> o.result.value.id == id && o.result.value.lifetime > now
    ensures o.result.Err? ==> o.result.error == NotFound
    ensures !HasId(ss, id) ==> o == Outcome(Err(NotFound), ss)
  {
    match FindIndex(ss, id)
    case None => Outcome(Err(NotFound), ss)
    case Some(k) =>
      if ss[k].lifetime <= now then Outcome(Err(NotFound), RemoveSessionIndex(ss, k))
      else Outcome(Ok(ss[k]), ss)
  }

  /** Removing `id`: the match is deleted in place; no match is an error that changes nothing. */
  function Delete(ss: seq<Session>, id: string): (o: Outcome<()>)
    ensures o.result.Ok? <==> HasId(ss, id)
    ensures o.result.Err? ==> o == Outcome(Err(NotFound), ss)
    ensures o.result.Ok? ==> |o.sessions| == |ss| - 1
  {
    match FindIndex(ss, id)
    case None => Outcome(Err(NotFound), ss)
    case Some(k) => Outcome(Ok(()), RemoveSessionIndex(ss, k))
  }

  /** With distinct ids, a lookup succeeds exactly when the session with that id is still live. */
  lemma LookupSucceedsIffLive(ss: seq<Session>, id: string, now: int)
    requires DistinctIds(ss)
    ensures Lookup(ss, id, now).result.Ok? <==>
      exists k :: 0 <= k < |ss| && ss[k].id == id && ss[k].lifetime > now
  {
    if k :| 0 <= k < |ss| && ss[k].id == id && ss[k].lifetime > now {
      assert FindIndex(ss, id) == Some(k);
    }
  }

  /**
   * A lookup of the session at position `k` once it has expired deletes
   * exactly that entry, keeps the others in order, and leaves no session
   * with that id behind.
   */
  lemma LookupExpiredRemoves(ss: seq<Session>, k: nat, now: int)
    requires DistinctIds(ss) && k < |ss| && ss[k].lifetime <= now
    ensures Lookup(ss, ss[k].id, now) == Outcome(Err(NotFound), RemoveSessionIndex(ss, k))
    ensures !HasId(Lookup(ss, ss[k].id, now).sessions, ss[k].id)
  {
    assert FindIndex(ss, ss[k].id) == Some(k);
    RemoveSessionIndexDropsId(ss, k);
  }

  /** Every lookup keeps the ids distinct. */
  lemma LookupKeepsDistinct(ss: seq<Session>, id: string, now: int)
    requires DistinctIds(ss)
    ensures DistinctIds(Lookup(ss, id, now).sessions)
  {
    match FindIndex(ss, id)
    case None =>
    case Some(k) => RemoveSessionIndexDropsId(ss, k);
  }

  /** Once a lookup has reported an id missing, a lookup of it on the list it left, at any time, does too and changes nothing. */
  lemma {:induction false} LookupMissStaysMissing(ss: seq<Session>, id: string, now: int, later: int)
    requires DistinctIds(ss)
    ensures var o := Lookup(ss, id, now);
      o.result.Err? ==> Lookup(o.sessions, id, later) == Outcome(Err(NotFound), o.sessions)
  {
    match FindIndex(ss, id)
    case None =>
    case Some(k) =>
      if ss[k].lifetime <= now {
        LookupExpiredRemoves(ss, k, now);
      }
  }

  /** With distinct ids, removing a present id deletes exactly its entry and no session with it is left. */
  lemma DeleteRemovesExactly(ss: seq<Session>, k: nat)
    requires DistinctIds(ss) && k < |ss|
    ensures Delete(ss, ss[k].id) == Outcome(Ok(()), RemoveSessionIndex(ss, k))
    ensures DistinctIds(Delete(ss, ss[k].id).sessions)
    ensures !HasId(Delete(ss, ss[k].id).sessions, ss[k].id)
  {
    assert FindIndex(ss, ss[k].id) == Some(k);
    RemoveSessionIndexDropsId(ss, k);
  }

  /** After a removal, looking the id up fails, whatever the time. */
  lemma DeleteThenLookupFails(ss: seq<Session>, id: string, now: int)
    requires DistinctIds(ss)
    ensures var d := Delete(ss, id).sessions;
      Lookup(d, id, now) == Outcome(Err(NotFound), d)
  {
    match FindIndex(ss, id)
    case None =>
    case Some(k) => RemoveSessionIndexDropsId(ss, k);
  }

  /** A freshly appended session is found by its id until its lifetime has passed. */
  lemma CreateThenLookup(ss: seq<Session>, s: Session, now: int)
    requires !HasId(ss, s.id)
    ensures Lookup(ss + [s], s.id, now).result == if s.lifetime > now then Ok(s) else Err(NotFound)
    ensures s.lifetime <= now ==> Lookup(ss + [s], s.id, now).sessions == ss
  {
    var r := ss + [s];
    assert r[|ss|] == s;
    assert FindIndex(r, s.id) == Some(|ss|);
    assert r[..|ss|] == ss;
  }

  // ---------------------------------------------------------------------
  // The manager

  class SessionManager {
    const sessionName: string
    var sessions: seq<Session>

    ghost predicate Valid()
      reads this
    {
      DistinctIds(sessions)
    }

    constructor (sessionName: string)
      ensures this.sessionName == sessionName && sessions == []
      ensures Valid()
    {
      this.sessionName := sessionName;
      sessions := [];
    }

    /**
     * Generates a fresh id from `draws` and appends a new session with
     * lifetime `lt`, empty variables and no message; a failed random read
     * changes nothing.
     */
    method CreateSession(lt: int, draws: seq<seq<Byte>>) returns (r: Result<Session, Error>)
      requires Valid()
      modifies this
      ensures Valid()
      ensures var g := GenerateSessionId(old(sessions), IdByteLength, draws);
        if g.Err? then r == Err(g.error) && sessions == old(sessions)
        else (r.Ok? && fresh(r.value) && sessions == old(sessions) + [r.value]
          && r.value.id == g.value && r.value.lifetime == lt
          && r.value.vars == map[] && r.value.message == NoMessage)
    {
      var g := GenerateSessionId(sessions, IdByteLength, draws);
      if g.Err? {
        return Err(g.error);
      }
      var s := new Session(g.value, lt);
      AppendFreshKeepsDistinct(sessions, s);
      sessions := sessions + [s];
      r := Ok(s);
    }

    /** Scans for `id`; a live match is returned, an expired one is removed and reported missing. */
    method GetSession(id: string, now: int) returns (r: Result<Session, Error>)
      requires Valid()
      modifies this
      ensures Valid()
      ensures Outcome(r, sessions) == Lookup(old(sessions), id, now)
    {
      var i := 0;
      while i < |sessions|
        invariant 0 <= i <= |sessions|
        invariant sessions == old(sessions)
        invariant forall j :: 0 <= j < i ==> sessions[j].id != id
      {
        if sessions[i].id == id {
          if sessions[i].lifetime <= now {
            RemoveSessionIndexDropsId(sessions, i);
            sessions := RemoveSessionIndex(sessions, i);
            return Err(NotFound);
          } else {
            return Ok(sessions[i]);
          }
        }
        i := i + 1;
      }
      return Err(NotFound);
    }

    /** Looks up the id carried by the session cookie; a request without one is an error. */
    method GetSessionFromCookie(cookie: Option<string>, now: int) returns (r: Result<Session, Error>)
      requires Valid()
      modifies this
      ensures Valid()
      ensures cookie.None? ==> r == Err(CookieMissing) && sessions == old(sessions)
      ensures cookie.Some? ==> Outcome(r, sessions) == Lookup(old(sessions), cookie.value, now)
    {
      if cookie.None? {
        return Err(CookieMissing);
      }
      r := GetSession(cookie.value, now);
    }

    /** Looks up the id in the URL query parameter named after the manager; a missing parameter reads as "". */
    method GetSessionFromUrl(query: map<string, seq<string>>, now: int) returns (r: Result<Session, Error>)
      requires Valid()
      modifies this
      ensures Valid()
      ensures Outcome(r, sessions) == Lookup(old(sessions), QueryGet(query, sessionName), now)
    {
      r := GetSession(QueryGet(query, sessionName), now);
    }

    /** Scans for `id` and deletes the match in place; no match is an error. */
    method RemoveSession(id: string) returns (r: Result<(), Error>)
      requires Valid()
      modifies this
      ensures Valid()
      ensures Outcome(r, sessions) == Delete(old(sessions), id)
    {
      var i := 0;
      while i < |sessions|
        invariant 0 <= i <= |sessions|
        invariant sessions == old(sessions)
        invariant forall j :: 0 <= j < i ==> sessions[j].id != id
      {
        if sessions[i].id == id {
          RemoveSessionIndexDropsId(sessions, i);
          sessions := RemoveSessionIndex(sessions, i);
          return Ok(());
        }
        i := i + 1;
      }
      return Err(NotFound);
    }

    method RemoveAllSessions()
      modifies this
      ensures Valid()
      ensures sessions == []
    {
      sessions := [];
    }
  }

  /** The first value of a query parameter, or "" when it has none. */
  function QueryGet(query: map<string, seq<string>>, key: string): (v: string) {
    if key in query && query[key] != [] then query[key][0] else ""
  }
}
