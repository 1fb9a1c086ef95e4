# rediLock in Dafny

A model of rediLock, a distributed mutex kept in one Redis server. A `Mutex`
has a key name, a random token, a lease (`expire`) and a retry interval.
`Lock` repeats `SET name token PX ms NX` until the key is written.
`UnLock` runs a server-side script that deletes the key only when it still
holds this mutex's token.

The Redis server is a value of type `Store.Store`. It maps each key to its
value and expiry deadline, and it has a clock in nanoseconds. The two
commands the mutex sends are pure state transitions on it. Expiry is an
explicit `Advance` that moves the clock and drops the keys whose lease has
run out.

Files:

- `base64.dfy`, module `Base64`: the standard Base64 encoding of RFC 4648,
  section 4, which turns the 32 random bytes into the token. Decoding is
  included only to prove that encoding loses nothing.
- `store.dfy`, module `Store`: the store, `SET ... PX ... NX`, the
  compare-and-delete script, and the passing of time.
- `redilock.dfy`, module `RediLock`: durations, the two options,
  `OptionFunc.Apply`, the classes `Pool`, `Mutex` and `RediSync` (with
  `NewMutex`, `Lock` and `UnLock`), and `LockRun`, which gives the meaning of
  `Lock`'s loop.
- `protocol.dfy`, module `Protocol`: many mutexes that share one store. The
  store sees an interleaving of single acquire attempts, releases and sleeps.
  Mutual exclusion and stale-release safety are proved as an invariant of
  every such interleaving.

Behaviour the code shows that a plain description of the protocol hides:

- The PX argument is `expire` truncated toward zero to whole milliseconds, then converted to Go's `int`, which the model takes to be 64 bits wide.
- Redis rejects a `SET` whose PX is not positive. So a lease below one
  millisecond makes every attempt fail, and `Lock` would retry forever
  (`RediLock.SubMillisecondLeaseNeverLocks`).
- A non-positive retry interval makes `time.Sleep` return at once, so no
  time passes between attempts.

## Model

| member | source | states |
|---|---|---|
| `Base64.EncodeShape` | mutex.go:94 | The standard encoding of n bytes has 4 * ceil(n / 3) characters. All of them are alphabet symbols except the trailing (3 - n mod 3) mod 3 padding characters, which are '='. |
| `Base64.DecodeEncode` | mutex.go:94 | Decoding the encoding gives back exactly the encoded bytes. |
| `Base64.EncodeInjective` | mutex.go:88-95 | Distinct random byte strings give distinct tokens. |
| `Base64.TokenShape` | mutex.go:89-94 | The token of 32 bytes has 44 characters: 43 alphabet symbols and then exactly one '='. |
| `Base64.IndexOfSymbol` | mutex.go:94 | A character is in the standard alphabet exactly when it has an index in 0..63, and the symbol at that index is the character. |
| `Base64.SymbolIndex` | mutex.go:94 | Each of the 64 indices gives an alphabet symbol, whose index is the one it came from. |
| `Store.SetPxNx` | mutex.go:103 | `SET key value PX px NX` succeeds exactly when px > 0 and the key is absent. On success the key holds the value with a deadline px ms from now, and no other key changes. On the nil or error reply the store is unchanged. |
| `Store.DeleteScript` | mutex.go:79-85 | The script replies 1 exactly when the key holds the argument, and then the store is the old one with only that key removed and the clock unchanged. Otherwise it replies 0 and the store is unchanged. A store with no expired keys stays so. |
| `Store.Advance` | mutex.go:107 | After a sleep the clock has moved by its length and every remaining key is still live. |
| `Store.AdvanceCompose` | mutex.go:107 | Two sleeps in a row leave the store as one sleep of their total length would. |
| `Store.AdvanceZero` | mutex.go:107 | On a store with no expired keys, a sleep of no time (a non-positive retry interval) changes nothing. |
| `Store.SetExcludes` | mutex.go:103-106 | While one token holds a key, an acquire attempt with any other token fails and leaves the store unchanged. |
| `Store.StaleReleaseKeepsHolder` | mutex.go:79-85 | A release with a token that is not the stored one replies 0, changes nothing, and the holder keeps the key. |
| `Store.DeleteIdempotent` | mutex.go:79-85 | Running the script a second time with the same token replies 0 and changes nothing. |
| `Store.DeleteReleases` | mutex.go:79-85 | After the script the token no longer holds the key, and every other key is as before. |
| `RediLock.Millis` | mutex.go:103 | The PX value is the duration in milliseconds, truncated toward zero. The remainder is under one millisecond and has the duration's sign. |
| `RediLock.MillisPositive` | mutex.go:67 | PX is positive exactly when the lease is at least 1 ms. The default lease of 5 s is sent as 5000. |
| `RediLock.Option.Apply` | mutex.go:31-47 | `SetExpire(d)` sets the mutex's lease to d and `SetRetryInterval(d)` its retry interval; the other setting, the name, the token and the pool stay as they were. |
| `RediLock.ApplyAllConcat` | mutex.go:72-74 | Applying two lists of options one after the other is the same as applying their concatenation. |
| `RediLock.LastExpireAt` | mutex.go:72-74 | The index found holds a `SetExpire`, and no later option is one; -1 when the list has none. |
| `RediLock.LastRetryIntervalAt` | mutex.go:72-74 | The index found holds a `SetRetryInterval`, and no later option is one; -1 when the list has none. |
| `RediLock.LastOptionWins` | mutex.go:35-47 | The last `SetExpire` decides the lease, and the last `SetRetryInterval` decides the retry interval. A kind that does not occur keeps its earlier value. |
| `RediLock.NoOptionsKeepDefaults` | mutex.go:64-70 | With no options a mutex keeps a 5 s lease (PX 5000) and a 100 ms retry interval. |
| `RediLock.Mutex.constructor` | mutex.go:64-70 | A fresh mutex has the given name, token and pool, a 5 s lease and a 100 ms retry interval. |
| `RediLock.RediSync.constructor` | mutex.go:50-54 | The factory keeps the pool it is given. |
| `RediLock.RediSync.NewMutex` | mutex.go:57-76 | The new mutex has the given name and the factory's pool. Its token is the Base64 form of the 32 random bytes. Its settings are the defaults with the options applied in order. |
| `RediLock.LockRun` | mutex.go:102-108 | When the loop succeeds, the store holds the mutex's token under its name, with a deadline one lease (in whole ms) after the current clock. The clock never goes back, and a valid store stays valid. |
| `RediLock.LockRunFailureOnlyWaits` | mutex.go:102-108 | When no attempt succeeds, only time has passed: the clock has moved by one retry interval (or nothing, when it is not positive) per attempt, and on a store with no expired keys the store is exactly what that much time makes of it. |
| `RediLock.Mutex.Lock` | mutex.go:98-109 | The new store and the success flag are those of `LockRun`. On success the store holds this mutex's token under its name. A store with no expired keys stays so. |
| `RediLock.Mutex.UnLock` | mutex.go:112-123 | The new store is the result of the delete script with this mutex's name and token, so the token no longer holds the key. A store with no expired keys stays so. |
| `RediLock.LockRunFrame` | mutex.go:102-108 | The acquire loop never writes another key. Another key is present afterwards exactly when it was present before and its lease has not run out, and its entry is unchanged. |
| `RediLock.SubMillisecondLeaseNeverLocks` | mutex.go:103-107 | With a lease under 1 ms, no attempt ever succeeds. |
| `RediLock.LockConverges` | mutex.go:102-108 | With no other client, a lease of at least 1 ms and a positive retry interval, the loop gets the lock once the holder's deadline has been reached within the sleeps it makes. |
| `Protocol.StepKeepsInv` | mutex.go:79-107 | Each attempt, release or sleep keeps the invariant. The invariant says that a client whose lease is still running holds its key in the store, with the deadline it was granted. |
| `Protocol.AttemptKeepsInv` | mutex.go:103-106 | A successful attempt by one client never takes a key that a client in its critical section holds. |
| `Protocol.ReleaseKeepsInv` | mutex.go:112-123 | A release by one client never removes the key of another client in its critical section. |
| `Protocol.SleepKeepsInv` | mutex.go:107 | Passing time keeps the key of every client whose lease is still running. |
| `Protocol.RunKeepsInv` | mutex.go:98-123 | Any interleaving of attempts, releases and sleeps keeps the invariant. |
| `Protocol.MutualExclusion` | mutex.go:79-106 | Two clients of the same name with distinct tokens are never both in their critical section, which lasts from a successful attempt until the release or the end of the lease, whichever comes first. |
| `Protocol.MutualExclusionAlways` | mutex.go:98-123 | After any interleaving that starts from a valid store with no holders, at most one client per name is in its critical section (holds the lock while its lease lasts). |
| `Protocol.OthersReleaseKeepsHolder` | mutex.go:116 | When another client of the same name releases, the client in its critical section stays there and keeps its key. |
| `Protocol.RunConcat` | mutex.go:98-123 | Running two event sequences one after the other is running their concatenation. |
| `Protocol.LockRunIsTrace` | mutex.go:98-109 | When no other client acts meanwhile, the store `LockRun` (and so `Mutex.Lock`) computes is the store the interleaving of that call's attempts and sleeps produces. When `Lock` succeeds, the client is then in its critical section, so mutual exclusion covers every call of `Lock`. |
| `Protocol.DistinctRandomDistinctTokens` | mutex.go:58 | Mutexes built from pairwise distinct random bytes carry pairwise distinct tokens. |

## Left out

- `redis.go`: the connection pool settings, URL parsing, dialing, AUTH and the PING on borrow. A `Pool` is only a handle to the one store.
- Network I/O, the Redis client library, and error replies other than the rejection of a non-positive PX. Each command is one atomic step on the store. The store answers every command without error, except that `SET` rejects PX ≤ 0. It never gives a transport failure, or an error reply such as OOM, READONLY, LOADING, BUSY or NOAUTH.
- `RediLock.Mutex.UnLock`: the source's loop retries, with no delay, on any error: a transport failure or an error reply from the script. In the model the script never fails, so the loop runs once and is written without it. The model does not capture `UnLock` spinning on such an error.
- `RediLock.Mutex.Lock`: the source retries without bound, after any error as well as after a nil reply. In the model an attempt fails only on the nil reply or on the rejection of PX ≤ 0. The model stops after a given number of attempts and returns whether it got the lock. `RediLock.LockConverges` says when enough attempts suffice.
- `RediLock.Option.Apply`: in the source an option is any value with an `Apply(*Mutex)` method, and an `OptionFunc` may wrap any function on the mutex. The model has only the two options the package defines, `SetExpire` and `SetRetryInterval`; a caller's own option could change other fields, which the model does not capture.
- A lock held past its lease: a client whose lease ran out may still be between `Lock` and `UnLock` while another client acquires the key. Mutual exclusion is stated for the lease, not for that span, and the stale `UnLock` then deletes nothing.
- `RediLock.Millis`: Go's `int` is taken as 64 bits, so the conversion `int(...)` of the PX value changes nothing. Where `int` is 32 bits (386, arm), the conversion keeps the low 32 bits. A lease above 2^31 - 1 ms (about 24.8 days) is then sent wrapped: negative, so Redis rejects every attempt, or as a much shorter positive lease. The model does not capture that wrap.
- `Store.Advance`, `RediLock.LockConverges`: in the model a key is gone as soon as the clock reaches its deadline. Redis removes a key only once its millisecond clock is past the deadline, so a lease of PX p lasts between p and p + 1 ms there. The model's lease therefore ends up to 1 ms earlier than Redis's. Mutual exclusion is unaffected, because the model's lease is the shorter one. But where `LockConverges` lets an attempt made exactly at the holder's deadline succeed, Redis may answer nil and need one more attempt.
- `crypto/rand` and the panic when it fails. The 32 random bytes are a parameter of `NewMutex`.
- `time.Sleep` and the wall clock. A `Pool` starts from, and `Lock` and `UnLock` keep, a store with no expired keys, which is how the model says that Redis treats an expired key as absent. Time passes only through `Store.Advance`: after a failed attempt in `Lock`, or as a `Sleep` event in `Protocol`. Real time also passes while the client runs, which the model does not capture.
- Concurrency of goroutines and the test with 100 workers. Mutual exclusion is stated at the store, over interleavings of atomic commands.
- Connection lifetime, such as `Lock` holding one connection across its sleeps.
- Redis's rejection of an expiry so large that the deadline overflows. PX values below 2^63 / 10^6 cannot reach it.
- Type errors of the script's GET when the key holds a value that is not a string. Every key here holds a string.
