/**
 * Many mutexes sharing one store. Every client is one Mutex (its name, its
 * token, its settings); the store sees an interleaving of their single
 * acquire attempts (one round of Lock's loop), their releases (UnLock) and
 * the passing of time. A client is in its critical section from a
 * successful attempt until it releases or its lease deadline is reached.
 */
module Protocol {
  import opened Store
  import opened RediLock
  import Base64

  datatype Client = Client(name: string, token: string, config: Config)

  /** The store and, per client index, the deadline of the lease it was granted. */
  datatype World = World(store: Store, leases: map<nat, int>)

  datatype Event = Attempt(client: nat) | Release(client: nat) | Sleep(dt: nat)

  /** One event, applied atomically at the store; events of unknown clients change nothing. */
  function Step(clients: seq<Client>, w: World, e: Event): World
  {
    match e
    case Attempt(c) =>
      if c >= |clients| then w
      else
        var (t, reply) := SetPxNx(w.store, clients[c].name, clients[c].token, Millis(clients[c].config.expire));
        if reply == Ok then World(t, w.leases[c := t.data[clients[c].name].deadline])
        else World(t, w.leases)
    case Release(c) =>
      if c >= |clients| then w
      else World(DeleteScript(w.store, clients[c].name, clients[c].token).0, w.leases - {c})
    case Sleep(dt) =>
      World(Advance(w.store, dt), w.leases)
  }

  function Run(clients: seq<Client>, w: World, events: seq<Event>): World
    decreases |events|
  {
    if events == [] then w else Step(clients, Run(clients, w, events[..|events| - 1]), events[|events| - 1])
  }

  /** No two clients carry the same token (32 random bytes each). */
  predicate DistinctTokens(clients: seq<Client>)
  {
    forall i, j | 0 <= i < j < |clients| :: clients[i].token != clients[j].token
  }

  /** Client `c` was granted the lock and its lease has not run out. */
  predicate InCriticalSection(clients: seq<Client>, w: World, c: nat)
  {
    c < |clients| && c in w.leases && w.leases[c] > w.store.clock
  }

  /**
   * The protocol invariant: the store is valid, and each client in its
   * critical section is the one whose token the store holds under its name,
   * with the deadline it was granted.
   */
  ghost predicate Inv(clients: seq<Client>, w: World)
  {
    Valid(w.store) &&
    (forall c | c in w.leases :: c < |clients|) &&
    (forall c: nat | InCriticalSection(clients, w, c) ::
       Holds(w.store, clients[c].name, clients[c].token) &&
       w.store.data[clients[c].name].deadline == w.leases[c])
  }

  /** A store before any of the clients has acted: nobody has been granted the lock. */
  function Initial(s: Store): World
  {
    World(s, map[])
  }

  lemma AttemptKeepsInv(clients: seq<Client>, w: World, c: nat)
    requires Inv(clients, w) && c < |clients|
    ensures Inv(clients, Step(clients, w, Attempt(c)))
  {
    var cl := clients[c];
    var (t, reply) := SetPxNx(w.store, cl.name, cl.token, Millis(cl.config.expire));
    var w' := Step(clients, w, Attempt(c));
    if reply == Ok {
      forall d: nat | InCriticalSection(clients, w', d)
        ensures Holds(w'.store, clients[d].name, clients[d].token)
        ensures w'.store.data[clients[d].name].deadline == w'.leases[d]
      {
        if d != c {
          assert InCriticalSection(clients, w, d);
          assert clients[d].name != cl.name;
        }
      }
    }
  }

  lemma ReleaseKeepsInv(clients: seq<Client>, w: World, c: nat)
    requires Inv(clients, w) && DistinctTokens(clients) && c < |clients|
    ensures Inv(clients, Step(clients, w, Release(c)))
  {
    var cl := clients[c];
    var w' := Step(clients, w, Release(c));
    DeleteReleases(w.store, cl.name, cl.token);
    forall d: nat | InCriticalSection(clients, w', d)
      ensures Holds(w'.store, clients[d].name, clients[d].token)
      ensures w'.store.data[clients[d].name].deadline == w'.leases[d]
    {
      assert InCriticalSection(clients, w, d) && d != c;
      if clients[d].name == cl.name {
        assert clients[d].token != cl.token;
        StaleReleaseKeepsHolder(w.store, cl.name, clients[d].token, cl.token);
      }
    }
  }

  lemma SleepKeepsInv(clients: seq<Client>, w: World, dt: nat)
    requires Inv(clients, w)
    ensures Inv(clients, Step(clients, w, Sleep(dt)))
  {
    var w' := Step(clients, w, Sleep(dt));
    forall d: nat | InCriticalSection(clients, w', d)
      ensures Holds(w'.store, clients[d].name, clients[d].token)
      ensures w'.store.data[clients[d].name].deadline == w'.leases[d]
    {
      assert InCriticalSection(clients, w, d);
      AdvanceKeeps(w.store, dt, clients[d].name);
    }
  }

  /** Every atomic step at the store keeps the invariant. */
  lemma StepKeepsInv(clients: seq<Client>, w: World, e: Event)
    requires Inv(clients, w) && DistinctTokens(clients)
    ensures Inv(clients, Step(clients, w, e))
  {
    match e
    case Attempt(c) => if c < |clients| { AttemptKeepsInv(clients, w, c); }
    case Release(c) => if c < |clients| { ReleaseKeepsInv(clients, w, c); }
    case Sleep(dt) => SleepKeepsInv(clients, w, dt);
  }

  lemma {:induction false} RunKeepsInv(clients: seq<Client>, w: World, events: seq<Event>)
    requires Inv(clients, w) && DistinctTokens(clients)
    ensures Inv(clients, Run(clients, w, events))
    decreases |events|
  {
    if events != [] {
      RunKeepsInv(clients, w, events[..|events| - 1]);
      StepKeepsInv(clients, Run(clients, w, events[..|events| - 1]), events[|events| - 1]);
    }
  }

  /**
   * Mutual exclusion: two clients of the same name are never both in their
   * critical section.
   */
  lemma MutualExclusion(clients: seq<Client>, w: World, i: nat, j: nat)
    requires Inv(clients, w) && DistinctTokens(clients)
    requires InCriticalSection(clients, w, i) && InCriticalSection(clients, w, j)
    requires clients[i].name == clients[j].name
    ensures i == j
  {
    assert clients[i].token == w.store.data[clients[i].name].value == clients[j].token;
  }

  /** Mutual exclusion holds after any interleaving that starts from a valid store with no holders. */
  lemma MutualExclusionAlways(clients: seq<Client>, s: Store, events: seq<Event>, i: nat, j: nat)
    requires Valid(s) && DistinctTokens(clients)
    requires InCriticalSection(clients, Run(clients, Initial(s), events), i)
    requires InCriticalSection(clients, Run(clients, Initial(s), events), j)
    requires clients[i].name == clients[j].name
    ensures i == j
  {
    RunKeepsInv(clients, Initial(s), events);
    MutualExclusion(clients, Run(clients, Initial(s), events), i, j);
  }

  /**
   * Stale-release safety at the protocol level: when another client of the
   * same name releases, the client in its critical section stays there and
   * keeps its key.
   */
  lemma OthersReleaseKeepsHolder(clients: seq<Client>, w: World, holder: nat, other: nat)
    requires Inv(clients, w) && DistinctTokens(clients)
    requires InCriticalSection(clients, w, holder) && other != holder && other < |clients|
    ensures InCriticalSection(clients, Step(clients, w, Release(other)), holder)
    ensures Holds(Step(clients, w, Release(other)).store, clients[holder].name, clients[holder].token)
  {
    ReleaseKeepsInv(clients, w, other);
  }

  /** Running two event sequences one after the other is running their concatenation. */
  lemma {:induction false} RunConcat(clients: seq<Client>, w: World, a: seq<Event>, b: seq<Event>)
    ensures Run(clients, w, a + b) == Run(clients, Run(clients, w, a), b)
    decreases |b|
  {
    if b == [] {
      assert a + b == a;
    } else {
      var n := |b| - 1;
      assert (a + b)[..|a + b| - 1] == a + b[..n];
      RunConcat(clients, w, a, b[..n]);
    }
  }

  /**
   * The events one call of Lock by client `c` sends to the store when no
   * other client acts meanwhile: an attempt, and after each failure a sleep
   * of the retry interval, for at most `attempts` rounds.
   */
  function LockTrace(clients: seq<Client>, w: World, c: nat, attempts: nat): seq<Event>
    requires c < |clients|
    decreases attempts
  {
    if attempts == 0 then []
    else if SetPxNx(w.store, clients[c].name, clients[c].token, Millis(clients[c].config.expire)).1 == Ok then [Attempt(c)]
    else
      var round := [Attempt(c), Sleep(SleepNanos(clients[c].config.retryInterval))];
      round + LockTrace(clients, Run(clients, w, round), c, attempts - 1)
  }

  /**
   * Lock, seen from the protocol: the store LockRun computes is the one the
   * interleaving of its attempts and sleeps produces, and when Lock succeeds
   * the client is then in its critical section. So mutual exclusion covers
   * every call of Mutex.Lock.
   */
  lemma {:induction false} LockRunIsTrace(clients: seq<Client>, w: World, c: nat, attempts: nat)
    requires c < |clients|
    ensures var r := LockRun(w.store, clients[c].name, clients[c].token, clients[c].config, attempts);
            var v := Run(clients, w, LockTrace(clients, w, c, attempts));
            v.store == r.0 && (r.1 ==> InCriticalSection(clients, v, c))
    decreases attempts
  {
    var cl := clients[c];
    if attempts > 0 {
      var (t, reply) := SetPxNx(w.store, cl.name, cl.token, Millis(cl.config.expire));
      if reply == Ok {
        assert Run(clients, w, [Attempt(c)]) == Step(clients, w, Attempt(c));
      } else {
        var round := [Attempt(c), Sleep(SleepNanos(cl.config.retryInterval))];
        var w' := Run(clients, w, round);
        assert round[..1] == [Attempt(c)];
        assert Run(clients, w, round[..1]) == Step(clients, w, Attempt(c));
        assert w'.store == Advance(t, SleepNanos(cl.config.retryInterval));
        RunConcat(clients, w, round, LockTrace(clients, w', c, attempts - 1));
        LockRunIsTrace(clients, w', c, attempts - 1);
      }
    }
  }

  /** Mutexes built from distinct random bytes carry distinct tokens. */
  lemma DistinctRandomDistinctTokens(clients: seq<Client>, random: seq<seq<Base64.byte>>)
    requires |random| == |clients|
    requires forall i | 0 <= i < |clients| :: clients[i].token == Base64.Encode(random[i])
    requires forall i, j | 0 <= i < j < |random| :: random[i] != random[j]
    ensures DistinctTokens(clients)
  {
    forall i, j | 0 <= i < j < |clients|
      ensures clients[i].token != clients[j].token
    {
      Base64.EncodeInjective(random[i], random[j]);
    }
  }
}
