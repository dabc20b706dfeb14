/** The development keyring: `keygen` adds a key, replacing the one it had under the same id. */
module Keyring {

  datatype PublicKey = PublicKey(keyId: string, material: string)

  predicate UniqueIds(ring: seq<PublicKey>) {
    forall i, j | 0 <= i < j < |ring| :: ring[i].keyId != ring[j].keyId
  }

  predicate HasId(ring: seq<PublicKey>, keyId: string) {
    exists k | k in ring :: k.keyId == keyId
  }

  /** The ring without any key under `keyId`, every other key in its place. */
  function Without(ring: seq<PublicKey>, keyId: string): seq<PublicKey> {
    if ring == [] then []
    else if ring[0].keyId == keyId then Without(ring[1..], keyId)
    else [ring[0]] + Without(ring[1..], keyId)
  }

  lemma {:induction false} WithoutAppend(ring: seq<PublicKey>, k: PublicKey, keyId: string)
    ensures Without(ring + [k], keyId) == Without(ring, keyId) + (if k.keyId == keyId then [] else [k])
  {
    if ring == [] {
      assert ring + [k] == [k] && [k][1..] == [];
    } else {
      WithoutAppend(ring[1..], k, keyId);
      assert (ring + [k])[1..] == ring[1..] + [k];
    }
  }

  /** The loop of `existingKeys`: `out` shares its storage with the keys being read, so each kept key
      is written at or before the place it is read from. */
  method FilterInPlace(keys: array<PublicKey>, keyId: string) returns (n: nat)
    modifies keys
    ensures n <= keys.Length
    ensures keys[..n] == Without(old(keys[..]), keyId)
  {
    ghost var before := keys[..];
    n := 0;
    var i := 0;
    while i < keys.Length
      invariant 0 <= n <= i <= keys.Length
      invariant forall k | i <= k < keys.Length :: keys[k] == before[k]
      invariant keys[..n] == Without(before[..i], keyId)
    {
      var k := keys[i];
      WithoutAppend(before[..i], k, keyId);
      assert before[..i + 1] == before[..i] + [k];
      if k.keyId != keyId {
        keys[n] := k;
        n := n + 1;
        assert keys[..n] == keys[..n - 1] + [k];
      }
      i := i + 1;
    }
    assert before[..i] == before;
  }

  /** The ring after one `keygen`. */
  function Added(ring: seq<PublicKey>, key: PublicKey): seq<PublicKey> {
    Without(ring, key.keyId) + [key]
  }

  /** The ring after a run of `keygen`s from no file. */
  function Ring(generated: seq<PublicKey>): seq<PublicKey> {
    if generated == [] then []
    else Added(Ring(generated[..|generated| - 1]), generated[|generated| - 1])
  }

  /** The keys no later key replaced, in the order they were generated. */
  function Latest(generated: seq<PublicKey>): seq<PublicKey> {
    if generated == [] then []
    else if HasId(generated[1..], generated[0].keyId) then Latest(generated[1..])
    else [generated[0]] + Latest(generated[1..])
  }

  lemma {:induction false} LatestAppend(generated: seq<PublicKey>, key: PublicKey)
    ensures Latest(generated + [key]) == Added(Latest(generated), key)
  {
    if generated == [] {
      assert generated + [key] == [key] && [key][1..] == [];
    } else {
      var rest := generated[1..];
      LatestAppend(rest, key);
      assert (generated + [key])[1..] == rest + [key];
      assert forall k :: k in rest + [key] <==> k in rest || k == key;
      assert HasId(rest + [key], generated[0].keyId) <==> HasId(rest, generated[0].keyId) || key.keyId == generated[0].keyId;
      assert ([generated[0]] + Latest(rest))[1..] == Latest(rest);
    }
  }

  /** After any run of `keygen`s the ring holds exactly the last key generated under each id, oldest
      first. */
  lemma {:induction false} RingIsLatest(generated: seq<PublicKey>)
    ensures Ring(generated) == Latest(generated)
  {
    if generated == [] {
    } else {
      var n := |generated| - 1;
      RingIsLatest(generated[..n]);
      LatestAppend(generated[..n], generated[n]);
      assert generated == generated[..n] + [generated[n]];
    }
  }

  lemma {:induction false} LatestIds(generated: seq<PublicKey>, keyId: string)
    ensures HasId(Latest(generated), keyId) <==> HasId(generated, keyId)
  {
    if generated == [] {
    } else {
      var rest := generated[1..];
      LatestIds(rest, keyId);
      assert generated == [generated[0]] + rest;
      assert forall k :: k in [generated[0]] + Latest(rest) <==> k == generated[0] || k in Latest(rest);
    }
  }

  lemma {:induction false} LatestUnique(generated: seq<PublicKey>)
    ensures UniqueIds(Latest(generated))
  {
    if generated == [] {
    } else {
      var rest := Latest(generated[1..]);
      LatestUnique(generated[1..]);
      LatestIds(generated[1..], generated[0].keyId);
      forall i | 0 <= i < |rest| ensures !HasId(rest, generated[0].keyId) ==> rest[i].keyId != generated[0].keyId {
        assert rest[i] in rest;
      }
    }
  }

  /** So the ring has one entry per id ever generated, which is what `ParseKeyring` demands of it. */
  lemma RingIsUsable(generated: seq<PublicKey>)
    requires generated != []
    ensures UniqueIds(Ring(generated)) && Ring(generated) != []
    ensures forall id :: HasId(Ring(generated), id) <==> HasId(generated, id)
  {
    RingIsLatest(generated);
    LatestUnique(generated);
    forall id ensures HasId(Ring(generated), id) <==> HasId(generated, id) {
      LatestIds(generated, id);
    }
  }

  /** What `ParseKeyring` accepts, key material aside: some keys, none unnamed, no id twice. */
  predicate Usable(ring: seq<PublicKey>) {
    ring != [] && UniqueIds(ring) && forall i | 0 <= i < |ring| :: ring[i].keyId != ""
  }

  /** The keyring file `keygen` reads and rewrites. */
  class KeyringFile {
    var present: bool
    var keys: seq<PublicKey>

    constructor ()
      ensures !present && keys == []
    {
      present, keys := false, [];
    }

    /** Refuses to touch a file it could not have written; otherwise adds the key. */
    method Keygen(key: PublicKey) returns (ok: bool)
      modifies this
      ensures ok <==> key.keyId != "" && (old(present) ==> Usable(old(keys)))
      ensures ok ==> present && Usable(keys) && keys == Added(if old(present) then old(keys) else [], key)
      ensures !ok ==> present == old(present) && keys == old(keys)
    {
      if key.keyId == "" || (present && !Usable(keys)) {
        return false;
      }
      var ring: seq<PublicKey> := [];
      if present {
        var file := keys;
        var storage := new PublicKey[|file|](i requires 0 <= i < |file| => file[i]);
        assert storage[..] == file;
        var n := FilterInPlace(storage, key.keyId);
        ring := storage[..n];
        AddedUsable(file, key);
      }
      keys := ring + [key];
      present := true;
      return true;
    }
  }

  lemma {:induction false} WithoutMembers(ring: seq<PublicKey>, keyId: string)
    requires UniqueIds(ring)
    ensures UniqueIds(Without(ring, keyId))
    ensures forall k :: k in Without(ring, keyId) <==> k in ring && k.keyId != keyId
  {
    if ring == [] {
    } else {
      WithoutMembers(ring[1..], keyId);
      assert ring == [ring[0]] + ring[1..];
      var rest := Without(ring[1..], keyId);
      forall j | 0 <= j < |rest| ensures rest[j].keyId != ring[0].keyId {
        assert rest[j] in ring[1..];
      }
    }
  }

  lemma AddedUsable(ring: seq<PublicKey>, key: PublicKey)
    requires Usable(ring) && key.keyId != ""
    ensures Usable(Added(ring, key))
  {
    WithoutMembers(ring, key.keyId);
    var rest := Without(ring, key.keyId);
    forall i | 0 <= i < |rest| ensures rest[i].keyId != key.keyId && rest[i].keyId != "" {
      assert rest[i] in ring;
    }
  }
}
