/** The cached copy of the state manager's data: when it is fetched again, its
    index by component id, and what is looked up in it. */
module SmCache {
  import opened Common

  datatype Component = Component(id: string, role: string, subRole: string)

  /** One fetch: the second it was taken in, the components, and the component
      of each IP address. */
  datatype Snapshot = Snapshot(time: int, components: seq<Component>, ipAddrs: map<string, string>)

  /** smTimeStamp, smData and smDataMap. */
  datatype Cache = Cache(stamp: int, data: Option<Snapshot>, index: map<string, Component>)

  // -------------------------------------------------------------------- index

  /** Each id with the last component that has it. */
  function IndexOf(cs: seq<Component>): (m: map<string, Component>)
    ensures forall k :: k in m <==> exists c :: c in cs && c.id == k
  {
    if cs == [] then map[]
    else
      assert cs == cs[..|cs| - 1] + [cs[|cs| - 1]];
      IndexOf(cs[..|cs| - 1])[cs[|cs| - 1].id := cs[|cs| - 1]]
  }

  method MakeSmMap(cs: seq<Component>) returns (m: map<string, Component>)
    ensures m == IndexOf(cs)
  {
    m := map[];
    for i := 0 to |cs|
      invariant m == IndexOf(cs[..i])
    {
      assert cs[..i + 1][..i] == cs[..i];
      m := m[cs[i].id := cs[i]];
    }
    assert cs[..|cs|] == cs;
  }

  predicate Indexed(c: Cache) {
    c.index == if c.data.Some? then IndexOf(c.data.value.components) else map[]
  }

  /** The first component with the id, by a search of the list. */
  method FindByName(cs: seq<Component>, host: string) returns (r: Option<Component>)
    ensures r == FirstWith(cs, host)
  {
    for i := 0 to |cs|
      invariant FirstWith(cs, host) == FirstWith(cs[i..], host)
    {
      assert cs[i..][1..] == cs[i + 1..];
      if cs[i].id == host { return Some(cs[i]); }
    }
    return None;
  }

  function FirstWith(cs: seq<Component>, host: string): (r: Option<Component>)
    ensures r.Some? <==> exists c :: c in cs && c.id == host
    ensures r.Some? ==> r.value in cs && r.value.id == host
  {
    if cs == [] then None else if cs[0].id == host then Some(cs[0]) else FirstWith(cs[1..], host)
  }

  function IndexLookup(m: map<string, Component>, host: string): Option<Component> {
    if host in m then Some(m[host]) else None
  }

  predicate FirstAt(cs: seq<Component>, i: int) {
    0 <= i < |cs| && forall j | 0 <= j < i :: cs[j].id != cs[i].id
  }

  predicate LastAt(cs: seq<Component>, i: int) {
    0 <= i < |cs| && forall j | i < j < |cs| :: cs[j].id != cs[i].id
  }

  lemma {:induction false} FirstWithAt(cs: seq<Component>, i: nat)
    requires FirstAt(cs, i)
    ensures FirstWith(cs, cs[i].id) == Some(cs[i])
  {
    if i > 0 {
      assert cs[0].id != cs[i].id;
      assert forall j | 0 <= j < i - 1 :: cs[1..][j] == cs[j + 1];
      FirstWithAt(cs[1..], i - 1);
    }
  }

  lemma {:induction false} IndexOfAt(cs: seq<Component>, i: nat)
    requires LastAt(cs, i)
    ensures IndexLookup(IndexOf(cs), cs[i].id) == Some(cs[i])
  {
    if i < |cs| - 1 {
      assert cs[|cs| - 1].id != cs[i].id;
      IndexOfAt(cs[..|cs| - 1], i);
    }
  }

  function FirstBefore(cs: seq<Component>, k: nat): (i: nat)
    requires k < |cs|
    ensures i <= k && FirstAt(cs, i) && cs[i].id == cs[k].id
    decreases k
  {
    if j: nat :| j < k && cs[j].id == cs[k].id then FirstBefore(cs, j) else k
  }

  function LastAfter(cs: seq<Component>, k: nat): (i: nat)
    requires k < |cs|
    ensures k <= i && LastAt(cs, i) && cs[i].id == cs[k].id
    decreases |cs| - k
  {
    if j :| k < j < |cs| && cs[j].id == cs[k].id then LastAfter(cs, j) else k
  }

  /** What the two searches find: the first and the last with the id. */
  lemma SearchesFind(cs: seq<Component>, k: nat)
    requires k < |cs|
    ensures FirstWith(cs, cs[k].id) == Some(cs[FirstBefore(cs, k)])
    ensures IndexLookup(IndexOf(cs), cs[k].id) == Some(cs[LastAfter(cs, k)])
  {
    FirstWithAt(cs, FirstBefore(cs, k));
    IndexOfAt(cs, LastAfter(cs, k));
  }

  ghost predicate EndsEqual(cs: seq<Component>) {
    forall i, j | FirstAt(cs, i) && LastAt(cs, j) && cs[i].id == cs[j].id :: cs[i] == cs[j]
  }

  /** The two searches by name agree on every name exactly when the first and
      the last component of each id are equal. */
  lemma SearchesAgreeIff(cs: seq<Component>)
    ensures (forall host :: FirstWith(cs, host) == IndexLookup(IndexOf(cs), host)) <==> EndsEqual(cs)
  {
    if EndsEqual(cs) {
      forall host ensures FirstWith(cs, host) == IndexLookup(IndexOf(cs), host) { SearchesAgreeOn(cs, host); }
    } else {
      var i, j :| FirstAt(cs, i) && LastAt(cs, j) && cs[i].id == cs[j].id && cs[i] != cs[j];
      FirstWithAt(cs, i);
      IndexOfAt(cs, j);
    }
  }

  lemma SearchesAgreeOn(cs: seq<Component>, host: string)
    requires EndsEqual(cs)
    ensures FirstWith(cs, host) == IndexLookup(IndexOf(cs), host)
  {
    if c :| c in cs && c.id == host {
      var k :| 0 <= k < |cs| && cs[k] == c;
      SearchesFind(cs, k);
    }
  }

  // ----------------------------------------------------------------- fetching

  /** Whether a request for the state as of ts has to fetch: a forced one (below
      zero), one newer than the stamp, and the first. */
  predicate NeedsFetch(c: Cache, ts: int) {
    ts < 0 || ts > c.stamp || c.data.None?
  }

  /** The stamp is set before the fetch. */
  function Stamped(c: Cache, ts: int, now: int): Cache {
    c.(stamp := if ts <= 0 then now else ts)
  }

  function Filled(c: Cache, data: Snapshot): Cache {
    c.(data := Some(data), index := IndexOf(data.components))
  }

  /** A whole request for the state, with what the fetch would bring. */
  function GetState(c: Cache, ts: int, now: int, fetched: Option<Snapshot>): Cache {
    if !NeedsFetch(c, ts) then c
    else if fetched.Some? then Filled(Stamped(c, ts, now), fetched.value)
    else Stamped(c, ts, now)
  }

  const EVICTION_SECONDS := 600

  /** The package variables, used under the mutex. */
  class StateManager {
    var stamp: int
    var data: Option<Snapshot>
    var index: map<string, Component>

    function Contents(): Cache
      reads this
    {
      Cache(stamp, data, index)
    }

    /** As of second now: nothing is from the future, the index fits the data,
        and the data is not older than the stamp. */
    predicate Valid(now: int)
      reads this
    {
      && 0 <= stamp <= now && Indexed(Contents())
      && (data.Some? ==> stamp <= data.value.time <= now)
      && (data.None? ==> stamp == 0)
    }

    constructor ()
      ensures Contents() == Cache(0, None, map[]) && forall now | now >= 0 :: Valid(now)
    {
      stamp, data, index := 0, None, map[];
    }

    /** Fetch again when needed; now is when the mutex was taken, done when the
        request ends, and fetched what a fetch in between brings. */
    method ProtectedGetState(ts: int, now: int, fetched: Option<Snapshot>, ghost done: int)
      modifies this
      ensures Contents() == GetState(old(Contents()), ts, now, fetched)
      ensures ts < 0 || old(stamp) < ts || old(data) == None ==>
                && stamp == (if ts > 0 then ts else now) && data == (if fetched == None then old(data) else fetched)
                && (fetched.Some? ==> index == IndexOf(fetched.value.components))
      ensures 0 <= ts <= old(stamp) && old(data) != None ==> Contents() == old(Contents())
      ensures old(Valid(now)) && now > 0 && ts <= now && fetched.Some? && now <= fetched.value.time <= done ==>
                Valid(done) && old(stamp) <= stamp && data.Some? && ts <= data.value.time
    {
      if ts < 0 || ts > stamp || data == None {
        if ts <= 0 { stamp := now; } else { stamp := ts; }
        var newData := fetched;
        if newData != None {
          data := newData;
          index := MakeSmMap(data.value.components);
        }
      }
    }

    /** The component of an IP address: in data that is at most ten minutes old,
        or else in current data.  While fetches succeed, a component that is
        found was there in the last ten minutes, and one that is not found was
        not there some time after the second look started. */
    method FindXnameByIP(ip: string, now: int, fetched: Option<Snapshot>, ghost done: int,
                         now': int, fetched': Option<Snapshot>, ghost done': int)
      returns (found: bool, xname: string)
      requires 600 < now && done <= now' && Valid(now)
      requires fetched.Some? && now <= fetched.value.time <= done
      requires fetched'.Some? && now' <= fetched'.value.time <= done'
      modifies this
      ensures Valid(done') && data.Some?
      ensures found <==> ip in data.value.ipAddrs
      ensures found ==> xname == data.value.ipAddrs[ip] && now - 600 <= data.value.time
      ensures !found ==> now' <= data.value.time
    {
      ProtectedGetState(now - EVICTION_SECONDS, now, fetched, done);
      found := ip in data.value.ipAddrs;
      if !found {
        ProtectedGetState(now', now', fetched', done');
        found := ip in data.value.ipAddrs;
      }
      xname := if found then data.value.ipAddrs[ip] else "";
    }
  }
}
