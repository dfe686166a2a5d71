/**
 The Key Vault secret resolver as the source runs it: module-level state that
 initializeClient, getSecret and getRabbitMQUri update in place. The state is
 an object of class SecretResolver; each method is proved to leave the object
 in the state, and to return the value, given by the pure model in module
 KeyVaultSpec, whose properties are proved there.

 The remote store is an oracle: each call receives `outcome`, what the store
 answers if that call asks it; the environment is read from `env` at the time
 of the call.
 */
module KeyVault {
  import opened KeyVaultSpec

  class SecretResolver {
    /** The lazily built client, null (None) until the first construction. */
    var secretClient: Option<Handle>
    /** Secret name to value; entries are only ever added. */
    var secretCache: map<string, Option<string>>

    /** How many clients have been constructed so far. */
    ghost var constructions: nat
    /** Every call made to the remote store so far. */
    ghost var calls: seq<Call>

    ghost function Snapshot(): State
      reads this
    {
      State(secretClient, secretCache, constructions, calls)
    }

    ghost predicate Valid()
      reads this
    {
      Inv(Snapshot())
    }

    /** The state at module load: no client, an empty cache. */
    constructor ()
      ensures Valid() && Snapshot() == Initial
    {
      secretClient := None;
      secretCache := map[];
      constructions := 0;
      calls := [];
    }

    method InitializeClient(env: Env) returns (client: Option<Handle>)
      requires Valid()
      modifies this
      ensures Valid()
      ensures (Snapshot(), client) == KeyVaultSpec.InitializeClient(old(Snapshot()), env)
      ensures secretCache == old(secretCache) && calls == old(calls)
      ensures old(secretClient).Some? ==> client == old(secretClient) && secretClient == old(secretClient)
      ensures client == secretClient
    {
      if secretClient.Some? {
        return secretClient;
      }
      var vaultUri := EnvGet(env, KeyVaultUriVar);
      if !Truthy(vaultUri) {
        return None;
      }
      secretClient := Some(Handle(vaultUri.value));
      constructions := constructions + 1;
      client := secretClient;
    }

    method GetSecret(secretName: string, env: Env, outcome: FetchOutcome) returns (value: Option<string>)
      requires Valid()
      modifies this
      ensures Valid()
      ensures (Snapshot(), value) == KeyVaultSpec.GetSecret(old(Snapshot()), env, outcome, secretName)
      ensures secretName in old(secretCache) ==>
        value == old(secretCache)[secretName] && Snapshot() == old(Snapshot())
      ensures forall n :: n in old(secretCache) ==>
        n in secretCache && secretCache[n] == old(secretCache)[n]
    {
      if secretName in secretCache {
        return secretCache[secretName];
      }
      var client := InitializeClient(env);
      if client.None? {
        return None;
      }
      calls := calls + [Call(secretName, outcome)];
      match outcome {
        case Threw =>
          value := None;
        case Fetched(v) =>
          secretCache := secretCache[secretName := v];
          value := v;
      }
      GetSecretPreservesInv(old(Snapshot()), env, outcome, secretName);
    }

    method GetRabbitMQUri(env: Env, outcome: FetchOutcome) returns (uri: Option<string>)
      requires Valid()
      modifies this
      ensures Valid()
      ensures (Snapshot(), uri) == KeyVaultSpec.GetRabbitMQUri(old(Snapshot()), env, outcome)
      ensures uri.Some? ==> uri.value != ""
    {
      var kvUri := GetSecret(RabbitMQSecretName, env, outcome);
      if Truthy(kvUri) {
        return kvUri;
      }
      var queueUri := EnvGet(env, OrderQueueUriVar);
      if Truthy(queueUri) {
        return queueUri;
      }
      return None;
    }
  }
}
