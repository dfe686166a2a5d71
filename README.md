# Key Vault secret resolver of the order service

The order service resolves its message-queue connection URI through a small
resolver (`src/order-service/plugins/keyvault.js`). The resolver prefers Azure
Key Vault and falls back to the process environment. It keeps two pieces of
process-wide mutable state:

- `secretClient`, a lazily built Key Vault client. It is constructed only when
  `KEY_VAULT_URI` is non-empty, and never more than once.
- `secretCache`, a map from secret name to value. Entries are added on a
  successful fetch and never removed. Calls that do not overlap never replace
  an entry; two overlapping calls can (see "Left out").

It exports three operations:

- `initializeClient` returns the memoized client, or builds one.
- `getSecret(name)` works in this order: cache, then client, then remote fetch.
  Any fetch failure becomes null.
- `getRabbitMQUri` returns a truthy remote `rabbitmq-uri` if there is one. Otherwise
  it returns a non-empty `ORDER_QUEUE_URI`. Otherwise it returns null.

The project has two modules:

- `KeyVaultSpec` (keyvault_spec.dfy) is the resolver as a pure state machine.
  `State` holds the client, the cache and two instrumentation fields: the number
  of client constructions and the log of every remote call. Each operation is a
  function from the old state to the new state and the result. The invariant
  `Inv` holds in every reachable state. It says five things:
  - a client exists iff exactly one was constructed;
  - a stored client was built from a non-empty vault URI;
  - a remote call was made only if a client exists;
  - every remote call was made on a cache miss (`FetchedOnMiss`);
  - the cache is exactly what the successful calls wrote (`Cached`).

  The lemmas prove the resolver's promises about this machine.
- `KeyVault` (keyvault.dfy) holds class `SecretResolver`. Its fields are the
  module state. Its methods update the fields in place with `modifies this`,
  written as the source's branches. Each method is proved to keep `Valid()` and
  to produce exactly the new state and result of the pure model.

Interfaces to the outside are parameters:

- The environment is a `map<string, string>` read at call time. JavaScript
  truthiness of a string that may be missing is `Truthy`.
- The remote store is an oracle. Each call receives `outcome`, which is what
  `client.getSecret` would answer if that call reaches it. The answer is either
  `Fetched(value)` or `Threw`. The value is `None` when the SDK leaves
  `secret.value` undefined.
- The Azure SDK's client construction is the abstract step `Handle(vaultUri)`.

The JSDoc of `getSecret` (line 59) promises "secret value or null if not
found/not configured". Three observations about the code qualify that:

- `initializeClient` is called outside the `try` at line 67. An error thrown
  while the credential or client is constructed therefore propagates out of
  `getSecret`; it does not become null. The model does not include
  construction errors at all, and it makes no claim that `getSecret` never
  throws.
- `getRabbitMQUri` falls back whenever the remote result is falsy (line 94).
  That includes a secret whose value is empty or undefined, not only one that
  was not found.
- Such an empty or undefined value is still cached by `getSecret` (line 77). It
  therefore short-circuits every later lookup of that name.

## Model

| member | source | states |
|---|---|---|
| KeyVault.SecretResolver.constructor | src/order-service/plugins/keyvault.js:27-28 | the initial module state: no client, an empty cache, no construction, no remote call; the invariant holds |
| KeyVault.SecretResolver.InitializeClient | src/order-service/plugins/keyvault.js:33-54 | returns the stored client and changes nothing when one exists. Otherwise it builds and stores a client iff KEY_VAULT_URI is non-empty, else returns None. The cache is never touched. The new state and result are those of KeyVaultSpec.InitializeClient |
| KeyVault.SecretResolver.GetSecret | src/order-service/plugins/keyvault.js:61-85 | a hit returns the cached value with the whole state unchanged. No existing cache entry is altered or removed. The invariant is kept. The new state and result are those of KeyVaultSpec.GetSecret |
| KeyVault.SecretResolver.GetRabbitMQUri | src/order-service/plugins/keyvault.js:91-105 | any URI returned is non-empty. The invariant is kept. The new state and result are those of KeyVaultSpec.GetRabbitMQUri |
| KeyVaultSpec.InitializeClient | src/order-service/plugins/keyvault.js:33-54 | the returned handle is the stored client; cache and call log are untouched; with a client stored nothing changes; a client it builds comes from a set, non-empty KEY_VAULT_URI; the construction count rises by one exactly when the stored client changes |
| KeyVaultSpec.GetSecret | src/order-service/plugins/keyvault.js:61-85 | the result is the cache entry for the name after the call, or None when there is none; every existing entry is kept with its value; only the requested name can be added; a stored client is kept; at most one remote call is made |
| KeyVaultSpec.PreferRemote | src/order-service/plugins/keyvault.js:94-104 | a truthy remote value is returned as is; otherwise a set, non-empty ORDER_QUEUE_URI, otherwise None; the result is never an empty string |
| KeyVaultSpec.GetRabbitMQUri | src/order-service/plugins/keyvault.js:91-105 | the new state is the one getSecret('rabbitmq-uri') leaves; a returned URI is non-empty and is either getSecret's result or ORDER_QUEUE_URI |
| KeyVaultSpec.Cached | src/order-service/plugins/keyvault.js:77 | the cache as the last-write-wins fold of the successful remote calls' values; it holds at most one entry per call |
| KeyVaultSpec.Inv | src/order-service/plugins/keyvault.js:27-28 | the invariant of reachable states (five conjuncts, listed above); it implies at most one construction, and an empty cache while no client exists |
| KeyVaultSpec.SuccessStaysCached | src/order-service/plugins/keyvault.js:74-77 | a name that any remote call fetched successfully is in the cache built from the call log, because cache entries are never removed |
| KeyVaultSpec.CachedWasFetched | src/order-service/plugins/keyvault.js:74-77 | every name in the cache built from the call log was fetched successfully by some remote call |
| KeyVaultSpec.CachedNameWasFetched | src/order-service/plugins/keyvault.js:63-80 | in every reachable state, each cached name has a successful remote fetch whose value is the cached value |
| KeyVaultSpec.InitialInv | src/order-service/plugins/keyvault.js:27-28 | the process-start state satisfies the invariant |
| KeyVaultSpec.InitializeClientPreservesInv | src/order-service/plugins/keyvault.js:33-54 | initializeClient keeps the invariant, and the handle it returns is the stored client |
| KeyVaultSpec.GetSecretPreservesInv | src/order-service/plugins/keyvault.js:61-85 | getSecret keeps the invariant: a fetch happens only on a miss, and the cache stays exactly what the successful fetches wrote |
| KeyVaultSpec.GetRabbitMQUriPreservesInv | src/order-service/plugins/keyvault.js:91-105 | getRabbitMQUri keeps the invariant |
| KeyVaultSpec.ConstructedAtMostOnce | src/order-service/plugins/keyvault.js:33-54 | in every reachable state at most one client was constructed, and one was iff a client is stored |
| KeyVaultSpec.ClientMemoized | src/order-service/plugins/keyvault.js:34 | with a client stored, initializeClient returns it and changes nothing, whatever KEY_VAULT_URI says |
| KeyVaultSpec.InitializeClientReadsEndpoint | src/order-service/plugins/keyvault.js:36-53 | with no client, a client is built iff KEY_VAULT_URI is set and non-empty. It is built from that URI and counted once. Otherwise the state is unchanged. The cache and call log are never touched |
| KeyVaultSpec.ClientNeverRebuilt | src/order-service/plugins/keyvault.js:34 | once a client exists, neither getSecret nor getRabbitMQUri replaces it or constructs another |
| KeyVaultSpec.CacheHitShortCircuits | src/order-service/plugins/keyvault.js:63-65 | a cache hit returns the cached value with the state unchanged: no client built, no remote call |
| KeyVaultSpec.NoEndpointNotFound | src/order-service/plugins/keyvault.js:36-40 | with no client and no endpoint, the cache is empty and getSecret returns None for every name, changing nothing |
| KeyVaultSpec.FetchSuccessCaches | src/order-service/plugins/keyvault.js:74-80 | on a miss with a client available, a successful fetch makes one remote call. It inserts exactly name := value and returns that value. A client is then stored, and in a reachable state exactly one was ever constructed |
| KeyVaultSpec.FetchFailureKeepsCache | src/order-service/plugins/keyvault.js:72-84 | on a miss, a failed fetch returns None and leaves the cache as it was, with no entry for the name. Only a newly built client persists |
| KeyVaultSpec.CacheNeverOverwritten | src/order-service/plugins/keyvault.js:63-77 | a getSecret call never changes or removes an existing cache entry (for calls that do not overlap; see "Left out") |
| KeyVaultSpec.NoCallAfterSuccess | src/order-service/plugins/keyvault.js:63-77 | in any log of calls made on misses, no remote call for a name follows a successful one for it |
| KeyVaultSpec.FetchedOnMissPrefix | src/order-service/plugins/keyvault.js:63-74 | every prefix of a log of calls made on misses is itself such a log |
| KeyVaultSpec.CachedIsTheFetchedValue | src/order-service/plugins/keyvault.js:63-77 | in any log of calls made on misses, the cache maps each successfully fetched name to the value of that fetch |
| KeyVaultSpec.CacheHoldsFirstFetch | src/order-service/plugins/keyvault.js:63-80 | in every state reached by calls that do not overlap, a cached value is the first successfully fetched value for its name. No successful fetch for that name precedes it, and no fetch for it follows |
| KeyVaultSpec.RemoteTakesPrecedence | src/order-service/plugins/keyvault.js:93-96 | a truthy remote value for rabbitmq-uri is returned, whatever ORDER_QUEUE_URI holds |
| KeyVaultSpec.EnvironmentFallback | src/order-service/plugins/keyvault.js:98-104 | if the remote value is null, undefined or empty, a non-empty ORDER_QUEUE_URI is returned, and None otherwise. The state is the one getSecret left |
| KeyVaultSpec.RabbitMQUriNonEmpty | src/order-service/plugins/keyvault.js:93-104 | getRabbitMQUri never returns an empty string |
| KeyVaultSpec.RabbitMQUriFetchedOnce | src/order-service/plugins/keyvault.js:61-96 | once rabbitmq-uri has been fetched as u with one remote call, every later getRabbitMQUri returns u with no remote call. This holds whatever the store or the environment say later |
| KeyVaultSpec.LocalDevScenario | src/order-service/plugins/keyvault.js:91-102 | with no vault and ORDER_QUEUE_URI = amqp://dev:5672, that URI is returned and no client is built |
| KeyVaultSpec.FetchFailsScenario | src/order-service/plugins/keyvault.js:72-102 | with a vault whose fetch fails and ORDER_QUEUE_URI = amqp://local, amqp://local is returned. The cache stays empty and the client persists |
| KeyVaultSpec.NothingConfiguredScenario | src/order-service/plugins/keyvault.js:91-105 | with neither a vault nor ORDER_QUEUE_URI, None is returned and nothing changes |

## Left out

- The internals of `DefaultAzureCredential` and `SecretClient` (lines 23-24, 50-51) are foreign SDK code. Construction is the abstract step `Handle(vaultUri)`, and a fetch is an oracle answer.
- Construction errors are not modelled. In the source they propagate out of `initializeClient` and `getSecret`, because line 67 is outside the `try`.
- The `console.log` and `console.error` diagnostics (lines 38, 42, 73, 78, 82, 100) are I/O that does not affect control flow.
- Interleaving at the `await` (line 74) is not modelled. Each call runs atomically and in sequence. In the source, the cache check (line 63) and the cache write (line 77) are separated by that `await`. Two overlapping `getSecret` calls for the same name can therefore both miss, both fetch and both write, and the later write replaces the earlier value. KeyVaultSpec.CacheNeverOverwritten, KeyVaultSpec.CacheHoldsFirstFetch, KeyVaultSpec.NoCallAfterSuccess and the invariant's "every call was made on a miss" describe calls that do not overlap only. The client claims hold even with overlapping calls, because `initializeClient` never suspends.
- KeyVaultSpec.GetSecret: its result conflates null (no client, or a failed fetch) with undefined (a fetched secret without a value). Both are `None`. Every caller in the source only tests truthiness.
- The `module.exports` wiring (lines 107-111) is not modelled.
