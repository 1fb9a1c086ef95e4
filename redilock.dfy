/**
 * The mutex of rediLock: its settings, the options that change them, the
 * factory that builds a mutex around a fresh token, and the acquire and
 * release protocols run against the shared store.
 */
module RediLock {
  import opened Store
  import Base64

  /** Go's time.Duration: a signed 64-bit count of nanoseconds. */
  newtype Duration = x: int | -0x8000_0000_0000_0000 <= x < 0x8000_0000_0000_0000

  const MILLISECOND: Duration := 1_000_000
  const SECOND: Duration := 1_000_000_000

  const DEFAULT_EXPIRE: Duration := 5 * SECOND
  const DEFAULT_RETRY_INTERVAL: Duration := 100 * MILLISECOND

  /**
   * The PX argument of the acquire command: the lease in whole milliseconds,
   * Go's integer division of the duration by one millisecond, which
   * truncates toward zero. The conversion to Go's `int` is taken to be 64
   * bits wide and so changes nothing.
   */
  function Millis(d: Duration): (ms: int)
    ensures d >= 0 ==> 0 <= d as int - ms * 1_000_000 < 1_000_000
    ensures d < 0 ==> -1_000_000 < d as int - ms * 1_000_000 <= 0
  {
    if d >= 0 then d as int / 1_000_000 else -((-(d as int)) / 1_000_000)
  }

  /** The lease is sent as a positive PX exactly when it is at least one millisecond. */
  lemma MillisPositive(d: Duration)
    ensures Millis(d) > 0 <==> d >= MILLISECOND
    ensures Millis(DEFAULT_EXPIRE) == 5000
  {
  }

  /** How long time.Sleep waits: a duration that is not positive returns at once. */
  function SleepNanos(d: Duration): nat
  {
    if d > 0 then d as int else 0
  }

  /** The two settings an option can change. */
  datatype Config = Config(expire: Duration, retryInterval: Duration)

  const DEFAULTS: Config := Config(DEFAULT_EXPIRE, DEFAULT_RETRY_INTERVAL)

  /**
   * The options of the package: SetExpire(d) and SetRetryInterval(d) each
   * return an OptionFunc that writes one field of the mutex.
   */
  datatype Option = SetExpire(expire: Duration) | SetRetryInterval(interval: Duration)
  {
    /** The settings after this option has been applied. */
    function Configure(st: Config): Config
    {
      match this
      case SetExpire(d) => st.(expire := d)
      case SetRetryInterval(d) => st.(retryInterval := d)
    }

    /** OptionFunc.Apply: calls the option's closure on the mutex. */
    method Apply(m: Mutex)
      modifies m
      ensures m.Settings() == Configure(old(m.Settings()))
      ensures m.name == old(m.name) && m.value == old(m.value) && m.pool == old(m.pool)
    {
      match this
      case SetExpire(d) => m.expire := d;
      case SetRetryInterval(d) => m.retryInterval := d;
    }
  }

  /** The settings after applying `opts` in order, first to last. */
  function ApplyAll(st: Config, opts: seq<Option>): Config
    decreases |opts|
  {
    if opts == [] then st else opts[|opts| - 1].Configure(ApplyAll(st, opts[..|opts| - 1]))
  }

  /** Applying two lists of options is applying their concatenation. */
  lemma {:induction false} ApplyAllConcat(st: Config, a: seq<Option>, b: seq<Option>)
    ensures ApplyAll(st, a + b) == ApplyAll(ApplyAll(st, a), b)
    decreases |b|
  {
    if b == [] {
      assert a + b == a;
    } else {
      var n := |b| - 1;
      assert (a + b)[..|a + b| - 1] == a + b[..n];
      ApplyAllConcat(st, a, b[..n]);
    }
  }

  /** Index of the last SetExpire in `opts`, or -1 when there is none. */
  function LastExpireAt(opts: seq<Option>): (k: int)
    ensures -1 <= k < |opts|
    ensures k >= 0 ==> opts[k].SetExpire?
    ensures forall j | k < j < |opts| :: !opts[j].SetExpire?
    decreases |opts|
  {
    if opts == [] then -1
    else if opts[|opts| - 1].SetExpire? then |opts| - 1
    else LastExpireAt(opts[..|opts| - 1])
  }

  /** Index of the last SetRetryInterval in `opts`, or -1 when there is none. */
  function LastRetryIntervalAt(opts: seq<Option>): (k: int)
    ensures -1 <= k < |opts|
    ensures k >= 0 ==> opts[k].SetRetryInterval?
    ensures forall j | k < j < |opts| :: !opts[j].SetRetryInterval?
    decreases |opts|
  {
    if opts == [] then -1
    else if opts[|opts| - 1].SetRetryInterval? then |opts| - 1
    else LastRetryIntervalAt(opts[..|opts| - 1])
  }

  /**
   * The last SetExpire in `opts` decides the lease, and the last
   * SetRetryInterval the retry interval; a kind that does not occur keeps
   * its value from `st`.
   */
  lemma {:induction false} LastOptionWins(st: Config, opts: seq<Option>)
    ensures var k := LastExpireAt(opts);
            ApplyAll(st, opts).expire == if k < 0 then st.expire else opts[k].expire
    ensures var k := LastRetryIntervalAt(opts);
            ApplyAll(st, opts).retryInterval == if k < 0 then st.retryInterval else opts[k].interval
    decreases |opts|
  {
    if opts != [] {
      var n := |opts| - 1;
      LastOptionWins(st, opts[..n]);
      assert forall i | 0 <= i < n :: opts[..n][i] == opts[i];
    }
  }

  /** With no options a new mutex keeps the defaults: a 5 s lease and 100 ms between attempts. */
  lemma NoOptionsKeepDefaults()
    ensures ApplyAll(DEFAULTS, []) == DEFAULTS
    ensures Millis(ApplyAll(DEFAULTS, []).expire) == 5000
    ensures ApplyAll(DEFAULTS, []).retryInterval as int == 100 * 1_000_000
  {
  }

  /** The connection pool: every connection it hands out talks to this one store. */
  class Pool {
    var store: Store

    constructor (s: Store)
      requires Valid(s)
      ensures store == s
    {
      store := s;
    }
  }

  /** A Mutex: the key it locks, its token, its lease and its retry interval. */
  class Mutex {
    var name: string
    var value: string
    var expire: Duration
    var retryInterval: Duration
    var pool: Pool

    constructor (name: string, value: string, pool: Pool)
      ensures this.name == name && this.value == value && this.pool == pool
      ensures Settings() == DEFAULTS
    {
      this.name := name;
      this.value := value;
      this.expire := DEFAULT_EXPIRE;
      this.retryInterval := DEFAULT_RETRY_INTERVAL;
      this.pool := pool;
    }

    function Settings(): Config
      reads this
    {
      Config(expire, retryInterval)
    }

    /**
     * Lock: sends SET name value PX ms NX until it succeeds, sleeping the
     * retry interval after each failure. The source loops without bound; here
     * the loop stops after `attempts` tries and reports whether it got the lock.
     */
    method Lock(attempts: nat) returns (locked: bool)
      requires Valid(pool.store)
      modifies pool
      ensures Valid(pool.store)
      ensures (pool.store, locked) == LockRun(old(pool.store), name, value, Settings(), attempts)
      ensures locked ==> Holds(pool.store, name, value)
    {
      var px := Millis(expire);
      var i := 0;
      locked := false;
      while i < attempts
        invariant 0 <= i <= attempts
        invariant LockRun(old(pool.store), name, value, Settings(), attempts)
                  == LockRun(pool.store, name, value, Settings(), attempts - i)
        decreases attempts - i
      {
        var (s, reply) := SetPxNx(pool.store, name, value, px);
        pool.store := s;
        if reply == Ok {
          locked := true;
          return;
        }
        pool.store := Advance(pool.store, SleepNanos(retryInterval));
        i := i + 1;
      }
    }

    /** UnLock: runs the delete script with this mutex's name and token. */
    method UnLock()
      requires Valid(pool.store)
      modifies pool
      ensures Valid(pool.store)
      ensures pool.store == DeleteScript(old(pool.store), name, value).0
      ensures !Holds(pool.store, name, value)
    {
      var (s, _) := DeleteScript(pool.store, name, value);
      pool.store := s;
    }
  }

  /**
   * The effect of `attempts` rounds of the acquire loop, as a function of
   * the store: the store afterwards and whether some attempt succeeded.
   */
  function LockRun(s: Store, name: string, value: string, st: Config, attempts: nat): (r: (Store, bool))
    ensures r.1 ==> Holds(r.0, name, value)
                    && r.0.data[name].deadline == r.0.clock + Millis(st.expire) * NANOS_PER_MILLI
    ensures r.0.clock >= s.clock
    ensures Valid(s) ==> Valid(r.0)
    decreases attempts
  {
    if attempts == 0 then (s, false)
    else
      var (t, reply) := SetPxNx(s, name, value, Millis(st.expire));
      if reply == Ok then (t, true)
      else LockRun(Advance(t, SleepNanos(st.retryInterval)), name, value, st, attempts - 1)
  }

  /**
   * The acquire loop never writes a key other than `name`: another key is
   * afterwards present exactly when it was present before and its lease has
   * not run out by the final clock, and its entry is unchanged.
   */
  lemma {:induction false} LockRunFrame(s: Store, name: string, value: string, st: Config, attempts: nat, k: string)
    requires Valid(s) && k != name
    ensures var t := LockRun(s, name, value, st, attempts).0;
            (k in t.data <==> k in s.data && s.data[k].deadline > t.clock) &&
            (k in t.data ==> t.data[k] == s.data[k])
    decreases attempts
  {
    if attempts > 0 {
      var (t, reply) := SetPxNx(s, name, value, Millis(st.expire));
      if reply != Ok {
        var u := Advance(t, SleepNanos(st.retryInterval));
        AdvanceKeeps(t, SleepNanos(st.retryInterval), k);
        LockRunFrame(u, name, value, st, attempts - 1, k);
      }
    }
  }

  /**
   * A run of the loop that never gets the lock only waits: one retry
   * interval per attempt passes, and on a valid store nothing else happens
   * than what that much time does.
   */
  lemma {:induction false} LockRunFailureOnlyWaits(s: Store, name: string, value: string, st: Config, attempts: nat)
    ensures var r := LockRun(s, name, value, st, attempts);
            !r.1 ==> r.0.clock == s.clock + attempts * SleepNanos(st.retryInterval)
    ensures var r := LockRun(s, name, value, st, attempts);
            !r.1 && Valid(s) ==> r.0 == Advance(s, attempts * SleepNanos(st.retryInterval))
    decreases attempts
  {
    var d := SleepNanos(st.retryInterval);
    if attempts == 0 {
      if Valid(s) {
        AdvanceZero(s);
      }
    } else {
      var (t, reply) := SetPxNx(s, name, value, Millis(st.expire));
      if reply != Ok {
        var u := Advance(s, d);
        var m := (attempts - 1) * d;
        assert 0 <= m && d + m == attempts * d by { OneMoreRound(attempts, d); }
        assert LockRun(s, name, value, st, attempts) == LockRun(u, name, value, st, attempts - 1);
        LockRunFailureOnlyWaits(u, name, value, st, attempts - 1);
        AdvanceCompose(s, d, m);
      }
    }
  }


  /** One more round of n sleeps of length d. */
  lemma OneMoreRound(n: nat, d: nat)
    requires n > 0
    ensures 0 <= (n - 1) * d && d + (n - 1) * d == n * d
  {
  }

  /**
   * A lease shorter than one millisecond is sent as PX 0 or less, which the
   * store rejects: no attempt ever succeeds.
   */
  lemma {:induction false} SubMillisecondLeaseNeverLocks(s: Store, name: string, value: string, st: Config, attempts: nat)
    requires st.expire < MILLISECOND
    ensures !LockRun(s, name, value, st, attempts).1
    decreases attempts
  {
    MillisPositive(st.expire);
    if attempts > 0 {
      SubMillisecondLeaseNeverLocks(Advance(s, SleepNanos(st.retryInterval)), name, value, st, attempts - 1);
    }
  }

  /**
   * Without competing clients the loop gets the lock once the current
   * holder's lease has run out: with a lease of at least one millisecond and
   * a positive retry interval, `attempts` tries suffice when the holder's
   * deadline is reached within `attempts - 1` sleeps.
   */
  lemma {:induction false} LockConverges(s: Store, name: string, value: string, st: Config, attempts: nat)
    requires Valid(s)
    requires st.expire >= MILLISECOND && st.retryInterval > 0 && attempts > 0
    requires name in s.data ==> s.data[name].deadline <= s.clock + (attempts - 1) * st.retryInterval as int
    ensures LockRun(s, name, value, st, attempts).1
    decreases attempts
  {
    MillisPositive(st.expire);
    if name in s.data {
      var u := Advance(s, SleepNanos(st.retryInterval));
      AdvanceKeeps(s, SleepNanos(st.retryInterval), name);
      LockConverges(u, name, value, st, attempts - 1);
    }
  }

  /** RediSync: the factory that hands out mutexes over one pool. */
  class RediSync {
    const pool: Pool

    constructor (pool: Pool)
      ensures this.pool == pool
    {
      this.pool := pool;
    }

    /**
     * NewMutex: the token is the standard Base64 form of 32 random bytes;
     * the defaults are set, then the options are applied in order.
     */
    method NewMutex(name: string, random: seq<Base64.byte>, options: seq<Option>) returns (m: Mutex)
      requires |random| == 32
      ensures fresh(m)
      ensures m.name == name && m.value == Base64.Encode(random) && m.pool == pool
      ensures m.Settings() == ApplyAll(DEFAULTS, options)
    {
      var value := Base64.Encode(random);
      m := new Mutex(name, value, pool);
      for i := 0 to |options|
        invariant m.name == name && m.value == value && m.pool == pool
        invariant m.Settings() == ApplyAll(DEFAULTS, options[..i])
      {
        options[i].Apply(m);
        assert options[..i + 1][..i] == options[..i];
      }
      assert options[..|options|] == options;
    }
  }
}
