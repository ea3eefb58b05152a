/**
 * `TardisContract`: a time-locked message store. Senders encrypt their
 * messages with a per-address key the contract generates; the contract
 * decrypts and archives them and hides each text from readers until its
 * release time.
 *
 * The host environment is passed in: `caller` is `Blockchain.transaction.from`
 * and `now` is `new Date().getTime()`. The storage maps are fields; a thrown
 * error is an `Err` result, and since the host discards the writes of a call
 * that throws, such a call leaves every field as it was.
 */
module Contract {

  import opened Wrappers
  import opened JsText
  import opened JsNumber
  import SimpleCrypto
  import opened Rng
  import opened Keys
  import opened Archive

  /** The errors the contract throws. */
  datatype Error =
    | IncorrectReleaseTime
    | EmptyMessage
    | NoEncryptionKey
    | EmptyId
    | EmptyAddress

  /** The bounds of `init`'s `randomInRange(10**10, 10**11 - 1)`: floor(r * (max - min)) + min with 0 <= r < 1. */
  const SeedMin: int := 10_000_000_000
  const SeedMax: int := 100_000_000_000 - 2

  class TardisContract {

    /** `messageArchive.get("index")`: every message stored, in the order sent. */
    var archive: seq<Message>
    /** `idToMessageMap`: message id to archive position. */
    var idIndex: map<int, nat>
    /** `addressToMessageMap`: sender to the archive positions of its messages. */
    var addressIndex: map<Address, seq<nat>>
    /** `keyStorage`: each address's current key. */
    var keyStorage: map<Address, KeyRecord>
    /** `seed.get("data")`: the generator state. */
    var seed: Seed

    /** `keyExpires`: a new key lives for a day, in seconds. */
    const keyExpires: int := 60 * 60 * 24
    /** `cryptBlockSize`: the feedback distance of the cipher. */
    const cryptBlockSize: nat := 5

    /**
     * The indices agree with the archive, every stored record carries its
     * id, and no record is released before it was sent.
     */
    ghost predicate Valid()
      reads this`archive, this`idIndex, this`addressIndex
    {
      && idIndex == IdIndexOf(archive)
      && addressIndex == AddressIndexOf(archive)
      && (forall i :: 0 <= i < |archive| ==> archive[i].id.Some?)
      && (forall i :: 0 <= i < |archive| ==> archive[i].sendTs <= archive[i].releaseTs)
    }

    /** `init`, with the two draws of `Math.random` passed in as the initial seed. */
    constructor Init(first: int, second: int)
      requires SeedMin <= first <= SeedMax && SeedMin <= second <= SeedMax
      ensures Valid()
      ensures archive == [] && keyStorage == map[]
      ensures seed == Seed(first, second)
    {
      archive := [];
      idIndex := map[];
      addressIndex := map[];
      keyStorage := map[];
      seed := Seed(first, second);
    }

    /** `_random`: one generator step; stores the new state and returns the drawn Number. */
    method Random() returns (r: int)
      modifies this`seed
      ensures Draw(seed, r) == Next(old(seed))
    {
      var x, y := seed.first, seed.second;
      x := Xor(x, ShiftLeft(x, 23));
      var second := Xor(Xor(Xor(x, y), ShiftRight(x, 17)), ShiftRight(y, 26));
      seed := Seed(y, second);
      r := second + y;
    }

    /** `_generateKey(length)`: draws until the rendered text reaches `length` units and keeps `length - 1` of them. */
    method GenerateKeyString(length: int) returns (key: Text)
      modifies this`seed
      ensures var g := KeyGen(Next, old(seed), length); key == g.text && seed == g.seed
    {
      ghost var whole := Accumulate(Next, seed, [], length);
      var result: Text := [];
      while |result| < length
        invariant Accumulate(Next, seed, result, length).text == whole.text
        invariant Accumulate(Next, seed, result, length).seed == whole.seed
        decreases length - |result|
      {
        var value := Random();
        result := result + ToString36(value);
      }
      key := if length - 1 <= 0 then [] else if length - 1 >= |result| then result else result[..length - 1];
    }

    /**
     * `getKey`: the caller's key while its expiry lies after `now`, nothing
     * (the empty object) otherwise.
     */
    function GetKey(caller: Address, now: int): (r: Option<KeyRecord>)
      reads this`keyStorage
      ensures r.Some? <==> caller in keyStorage && Shown(keyStorage[caller], now)
      ensures r.Some? ==> r.value == keyStorage[caller]
    {
      if caller in keyStorage && keyStorage[caller].expires > now then Some(keyStorage[caller]) else None
    }

    /**
     * `generateKey(keyLength, generateNew)`: replaces the caller's key when
     * asked to, when there is none, or when it expired before `now`, with a key
     * of `NormalisedLength(keyLength) - 1` units that expires `keyExpires`
     * seconds after the start of the current minute. Always returns true.
     * Afterwards the caller holds a key `_decryptMessage` accepts at `now`;
     * only a kept key expiring exactly at `now` is not shown by `getKey`.
     */
    method GenerateKey(keyLength: int, generateNew: bool, caller: Address, now: int) returns (ok: bool)
      requires Valid()
      modifies this`keyStorage, this`seed
      ensures Valid()
      ensures ok
      ensures var renew := generateNew || caller !in old(keyStorage) || old(keyStorage)[caller].expires < now;
        && (renew ==>
              var g := KeyGen(Next, old(seed), NormalisedLength(keyLength));
              keyStorage == old(keyStorage)[caller := KeyRecord(g.text, Expiry(now, keyExpires))] && seed == g.seed)
        && (!renew ==> keyStorage == old(keyStorage) && seed == old(seed))
      ensures caller in keyStorage && Usable(keyStorage[caller], now)
      ensures GetKey(caller, now).None? <==> !generateNew && caller in old(keyStorage) && old(keyStorage)[caller].expires == now
    {
      var length := NormalisedLength(keyLength);
      if generateNew || caller !in keyStorage || keyStorage[caller].expires < now {
        var value := GenerateKeyString(length);
        keyStorage := keyStorage[caller := KeyRecord(value, Expiry(now, keyExpires))];
      }
      ok := true;
    }

    /**
     * `_decryptMessage`: fails unless the caller has a key that did not expire
     * before `now`; otherwise decrypts with it, and the plaintext encrypts back
     * to the message.
     */
    method DecryptMessage(message: Text, caller: Address, now: int) returns (r: Result<Text, Error>)
      ensures r.Err? <==> caller !in keyStorage || !Usable(keyStorage[caller], now)
      ensures r.Err? ==> r.error == NoEncryptionKey
      ensures r.Ok? ==> r.value == SimpleCrypto.Decrypted(message, keyStorage[caller].value, cryptBlockSize)
      ensures r.Ok? ==> SimpleCrypto.Encrypted(r.value, keyStorage[caller].value, cryptBlockSize) == message
    {
      if caller !in keyStorage || keyStorage[caller].expires < now {
        return Err(NoEncryptionKey);
      }
      var key := keyStorage[caller];
      var plain := SimpleCrypto.Decrypt(message, key.value, cryptBlockSize);
      SimpleCrypto.EncryptInvertsDecrypt(message, key.value, cryptBlockSize);
      r := Ok(plain);
    }

    /**
     * `addMessage(message, releaseTs, private)`. Fails, changing nothing, when
     * the release time is before `now`, then when the message is empty, then
     * when the caller has no usable key. Otherwise draws the message id, archives
     * the decrypted text under it, indexes it by id and by sender, and returns
     * the record with the ciphertext and no id.
     */
    method AddMessage(message: Text, releaseTs: int, isPrivate: bool, caller: Address, now: int)
      returns (r: Result<Message, Error>)
      requires Valid()
      modifies this`archive, this`idIndex, this`addressIndex, this`seed
      ensures Valid()
      ensures r.Ok? <==> releaseTs >= now && message != [] && caller in keyStorage && Usable(keyStorage[caller], now)
      ensures releaseTs < now ==> r == Err(IncorrectReleaseTime)
      ensures releaseTs >= now && message == [] ==> r == Err(EmptyMessage)
      ensures releaseTs >= now && message != [] && !(caller in keyStorage && Usable(keyStorage[caller], now)) ==>
        r == Err(NoEncryptionKey)
      ensures r.Err? ==>
        archive == old(archive) && idIndex == old(idIndex) && addressIndex == old(addressIndex) && seed == old(seed)
      ensures r.Ok? ==>
        var d := Next(old(seed));
        var id := Abs(d.value);
        var pos := |old(archive)|;
        var key := keyStorage[caller].value;
        && seed == d.seed
        && archive == old(archive) + [Message(SimpleCrypto.Decrypted(message, key, cryptBlockSize), releaseTs, now, caller, Some(id), isPrivate)]
        && SimpleCrypto.Encrypted(archive[pos].text, key, cryptBlockSize) == message
        && idIndex == old(idIndex)[id := pos]
        && addressIndex == old(addressIndex)[caller := (if caller in old(addressIndex) then old(addressIndex)[caller] else []) + [pos]]
        && r.value == Message(message, releaseTs, now, caller, None, isPrivate)
        && GetLastMessageId(caller) == Some(id)
    {
      if releaseTs < now {
        return Err(IncorrectReleaseTime);
      }
      if message == [] {
        return Err(EmptyMessage);
      }
      var saved := seed;
      var value := Random();
      var id := Abs(value);
      var plain := DecryptMessage(message, caller, now);
      if plain.Err? {
        // the host discards the seed update of a call that throws
        seed := saved;
        return Err(plain.error);
      }
      Append(Message(plain.value, releaseTs, now, caller, Some(id), isPrivate));
      r := Ok(Message(message, releaseTs, now, caller, None, isPrivate));
    }

    /**
     * The archive and index updates of a successful `addMessage`: the record
     * goes at the end of the archive, its id maps to its position, and the
     * position is appended to its sender's list.
     */
    method Append(m: Message)
      requires Valid()
      requires m.id.Some? && m.sendTs <= m.releaseTs
      modifies this`archive, this`idIndex, this`addressIndex
      ensures Valid()
      ensures archive == old(archive) + [m]
      ensures idIndex == old(idIndex)[m.id.value := |old(archive)|]
      ensures addressIndex ==
        old(addressIndex)[m.sender := (if m.sender in old(addressIndex) then old(addressIndex)[m.sender] else []) + [|old(archive)|]]
      ensures GetLastMessageId(m.sender) == m.id
    {
      var pos := |archive|;
      var userArchive := if m.sender in addressIndex then addressIndex[m.sender] else [];
      archive := archive + [m];
      assert archive[..pos] == old(archive);
      idIndex := idIndex[m.id.value := pos];
      addressIndex := addressIndex[m.sender := userArchive + [pos]];
      AddressIndexIsPositions(archive, m.sender);
    }

    /**
     * `getMessageById(id)`: fails on the falsy id 0; otherwise the newest record
     * stored under `id`, masked until its release time, or nothing (the empty
     * object) when no record carries it.
     */
    function GetMessageById(id: int, now: int): (r: Result<Option<Message>, Error>)
      reads this`archive, this`idIndex, this`addressIndex
      requires Valid()
      ensures r.Err? <==> id == 0
      ensures r.Err? ==> r.error == EmptyId
      ensures r == Ok(None) <==> id != 0 && forall i :: 0 <= i < |archive| ==> archive[i].id != Some(id)
      ensures r.Ok? && r.value.Some? ==>
        exists p :: 0 <= p < |archive| && archive[p].id == Some(id)
          && (forall j :: p < j < |archive| ==> archive[j].id != Some(id))
          && r.value.value == Masked(archive[p], now)
    {
      IdIndexFindsNewest(archive, id);
      if id == 0 then Err(EmptyId)
      else if id !in idIndex then Ok(None)
      else Ok(Some(Masked(archive[idIndex[id]], now)))
    }

    /** `getLastMessageId`: the id of the caller's newest message, or null when it sent none. */
    function GetLastMessageId(caller: Address): (r: Option<int>)
      reads this`archive, this`idIndex, this`addressIndex
      requires Valid()
      ensures r.None? <==> forall i :: 0 <= i < |archive| ==> archive[i].sender != caller
      ensures r.Some? ==>
        exists k :: 0 <= k < |archive| && archive[k].sender == caller && archive[k].id == r
          && forall j :: k < j < |archive| ==> archive[j].sender != caller
    {
      AddressIndexIsPositions(archive, caller);
      PositionsExact(archive, caller);
      if caller !in addressIndex then None
      else
        var ps := addressIndex[caller];
        NewestPosition(archive, caller);
        assert ps[|ps| - 1] in ps;
        archive[ps[|ps| - 1]].id
    }

    /**
     * `filterByAddress(address)`: fails on the empty address; otherwise the
     * messages `address` sent, newest first, masked until their release time,
     * without the private ones unless the caller is `address`.
     */
    function FilterByAddress(address: Address, caller: Address, now: int): (r: Result<seq<Message>, Error>)
      reads this`archive, this`idIndex, this`addressIndex
      requires Valid()
      ensures r.Err? <==> address == []
      ensures r.Err? ==> r.error == EmptyAddress
      ensures r.Ok? ==> r.value == AddressView(archive, address, caller, now)
    {
      if address == [] then Err(EmptyAddress)
      else
        AddressIndexIsPositions(archive, address);
        var userArchive := if address in addressIndex then addressIndex[address] else [];
        assert userArchive == Positions(archive, address);
        var listed := Listed(archive, userArchive, now);
        ListedIsAddressView(archive, address, caller, now);
        Ok(if caller != address then Public(listed) else listed)
    }

    /**
     * `getRecentMessages(cnt, ts)`: scans the archive from the newest record,
     * passes over the records `Skipped` names, keeps the released ones, and
     * stops once `cnt` (when given) is reached.
     */
    method GetRecentMessages(cnt: Option<int>, ts: int, caller: Address, now: int) returns (result: seq<Message>)
      ensures result == Recent(archive, cnt, caller, ts, now)
    {
      result := [];
      var i := |archive| - 1;
      while i >= 0
        invariant -1 <= i < |archive|
        invariant result == Released(archive[i + 1..], caller, ts, now)
        invariant cnt.Some? && cnt.value >= 1 ==> |result| < cnt.value
        invariant cnt.Some? && cnt.value <= 0 ==>
          result == [] && NewestUnskipped(archive, caller, ts) == NewestUnskipped(archive[..i + 1], caller, ts)
      {
        var message := archive[i];
        ReleasedStep(archive, i, caller, ts, now);
        assert archive[..i + 1][..i] == archive[..i];
        if !Skipped(message, caller, ts) {
          if message.releaseTs <= now {
            result := result + [message];
          }
          if cnt.Some? && |result| >= cnt.value {
            ReleasedSplits(archive, i, caller, ts, now);
            break;
          }
        }
        i := i - 1;
      }
      assert archive[0..] == archive;
      assert archive[..0] == [];
    }
  }
}
