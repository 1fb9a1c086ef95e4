/**
 * The shared Redis server, reduced to what the lock protocol uses: a map
 * from key to (value, expiry deadline), a clock, and the two atomic commands
 * the mutex sends, "SET key value PX ms NX" and the compare-and-delete
 * script. Time is in nanoseconds. The model takes a key to be gone as soon
 * as the clock reaches its deadline (Redis waits until its millisecond
 * clock is past it), so in a valid store every key is live.
 */
module Store {

  /** Nanoseconds in one millisecond: the unit of the PX argument. */
  const NANOS_PER_MILLI: int := 1_000_000

  datatype Entry = Entry(value: string, deadline: int)

  datatype Store = Store(data: map<string, Entry>, clock: int)

  /** Every key still present has not yet expired. */
  ghost predicate Valid(s: Store)
  {
    forall k | k in s.data :: s.data[k].deadline > s.clock
  }

  /** `token` is the value stored under `key`. */
  predicate Holds(s: Store, key: string, token: string)
  {
    key in s.data && s.data[key].value == token
  }

  /** Keys other than `key` are present with the same entries in both stores. */
  ghost predicate SameExcept(s: Store, t: Store, key: string)
  {
    (forall k | k in s.data && k != key :: k in t.data && t.data[k] == s.data[k]) &&
    (forall k | k in t.data && k != key :: k in s.data)
  }

  /** Replies of SET: "+OK", the nil reply when NX finds the key, or an error reply. */
  datatype SetReply = Ok | Nil | Error

  /**
   * SET key value PX px NX, executed atomically. Redis rejects an expiry that
   * is not positive with an error reply; otherwise the key is written only if
   * it is absent, with a deadline px milliseconds from now.
   */
  function SetPxNx(s: Store, key: string, value: string, px: int): (r: (Store, SetReply))
    ensures r.1 == Ok <==> px > 0 && key !in s.data
    ensures r.1 == Ok ==> r.0.clock == s.clock && Holds(r.0, key, value)
                          && r.0.data[key].deadline == s.clock + px * NANOS_PER_MILLI
                          && SameExcept(s, r.0, key)
    ensures r.1 != Ok ==> r.0 == s
    ensures Valid(s) ==> Valid(r.0)
  {
    if px <= 0 then (s, Error)
    else if key in s.data then (s, Nil)
    else (Store(s.data[key := Entry(value, s.clock + px * NANOS_PER_MILLI)], s.clock), Ok)
  }

  /**
   * The delete script: GET key; if it equals the argument, DEL key and reply
   * with the number of keys deleted, otherwise reply 0. A missing key reads
   * as false in the script, which equals no string.
   */
  function DeleteScript(s: Store, key: string, arg: string): (r: (Store, int))
    ensures r.1 == 1 <==> Holds(s, key, arg)
    ensures r.1 == 1 ==> r.0 == Store(s.data - {key}, s.clock)
    ensures r.1 != 1 ==> r.1 == 0 && r.0 == s
    ensures Valid(s) ==> Valid(r.0)
  {
    if key in s.data && s.data[key].value == arg then
      (Store(s.data - {key}, s.clock), 1)
    else
      (s, 0)
  }

  /**
   * Lets `dt` nanoseconds pass: the clock moves forward and every key whose
   * deadline has been reached disappears (the lease runs out).
   */
  function Advance(s: Store, dt: nat): (t: Store)
    ensures t.clock == s.clock + dt
    ensures Valid(t)
  {
    var now := s.clock + dt;
    Store(map k | k in s.data && s.data[k].deadline > now :: s.data[k], now)
  }

  /** Passing time keeps exactly the keys whose lease has not run out, unchanged. */
  lemma AdvanceKeeps(s: Store, dt: nat, k: string)
    ensures k in Advance(s, dt).data <==> k in s.data && s.data[k].deadline > s.clock + dt
    ensures k in Advance(s, dt).data ==> Advance(s, dt).data[k] == s.data[k]
  {
  }

  /** Two sleeps in a row are one sleep of their total length. */
  lemma AdvanceCompose(s: Store, a: nat, b: nat)
    ensures Advance(Advance(s, a), b) == Advance(s, a + b)
  {
    var t := Advance(Advance(s, a), b);
    var u := Advance(s, a + b);
    assert t.data.Keys == u.data.Keys;
  }

  /** On a valid store, a sleep of no time changes nothing. */
  lemma AdvanceZero(s: Store)
    requires Valid(s)
    ensures Advance(s, 0) == s
  {
    assert Advance(s, 0).data.Keys == s.data.Keys;
  }

  /** A key that is held makes every other SET NX on it fail and change nothing. */
  lemma SetExcludes(s: Store, key: string, holder: string, other: string, px: int)
    requires Holds(s, key, holder)
    ensures SetPxNx(s, key, other, px) == (s, if px > 0 then Nil else Error)
  {
  }

  /**
   * Stale-release safety: a script run with a token that is not the stored
   * value leaves the store as it is, so the current holder keeps the key.
   */
  lemma StaleReleaseKeepsHolder(s: Store, key: string, holder: string, stale: string)
    requires Holds(s, key, holder) && stale != holder
    ensures DeleteScript(s, key, stale) == (s, 0)
    ensures Holds(DeleteScript(s, key, stale).0, key, holder)
  {
  }

  /** Running the script a second time with the same token deletes nothing more. */
  lemma DeleteIdempotent(s: Store, key: string, token: string)
    ensures var once := DeleteScript(s, key, token).0;
            DeleteScript(once, key, token) == (once, 0)
  {
  }

  /** After the script the token no longer holds the key, whatever the store was. */
  lemma DeleteReleases(s: Store, key: string, token: string)
    ensures !Holds(DeleteScript(s, key, token).0, key, token)
    ensures SameExcept(s, DeleteScript(s, key, token).0, key)
  {
  }
}
