/**
 * The message archive of the Tardis contract and the two indices it keeps
 * beside it, as values: what each index must hold for a given archive, and
 * reference definitions of what the read queries return.
 */
module Archive {

  import opened Wrappers
  import opened JsText

  /** A wallet address, as `Blockchain.transaction.from` gives it. Addresses are only compared. */
  type Address = string

  /**
   * One record `{text, releaseTs, sendTs, sender, id, private}`. Stored records
   * always carry an id; the record `addMessage` returns has it set to null.
   */
  datatype Message = Message(
    text: Text,
    releaseTs: int,
    sendTs: int,
    sender: Address,
    id: Option<int>,
    isPrivate: bool)

  /** The record as the queries hand it out at time `now`: its text is blanked until its release time. */
  function Masked(m: Message, now: int): Message
  {
    if m.releaseTs > now then m.(text := []) else m
  }

  /* ---------------------------------------------------------------------- */
  /* The id index `idToMessageMap`                                           */
  /* ---------------------------------------------------------------------- */

  /** The id index built by appending the records in order: each id maps to the position last stored under it. */
  function IdIndexOf(a: seq<Message>): map<int, nat>
  {
    if |a| == 0 then map[]
    else
      var prev := IdIndexOf(a[..|a| - 1]);
      match a[|a| - 1].id
      case None => prev
      case Some(id) => prev[id := |a| - 1]
  }

  /**
   * An id is indexed exactly when some record carries it, and it then points
   * at the newest such record: a later record with the same id wins.
   */
  lemma {:induction false} IdIndexFindsNewest(a: seq<Message>, id: int)
    ensures id in IdIndexOf(a) <==> exists i :: 0 <= i < |a| && a[i].id == Some(id)
    ensures id in IdIndexOf(a) ==>
      var p := IdIndexOf(a)[id];
      p < |a| && a[p].id == Some(id) && forall j :: p < j < |a| ==> a[j].id != Some(id)
  {
    if |a| > 0 {
      var init := a[..|a| - 1];
      IdIndexFindsNewest(init, id);
      if id !in IdIndexOf(a) {
        forall i | 0 <= i < |a|
          ensures a[i].id != Some(id)
        {
          if i < |a| - 1 {
            assert a[i] == init[i];
          }
        }
      } else if a[|a| - 1].id != Some(id) {
        var p := IdIndexOf(a)[id];
        assert p == IdIndexOf(init)[id];
        assert a[p] == init[p];
        forall j | p < j < |a|
          ensures a[j].id != Some(id)
        {
          if j < |a| - 1 {
            assert a[j] == init[j];
          }
        }
      }
    }
  }

  /* ---------------------------------------------------------------------- */
  /* The sender index `addressToMessageMap`                                  */
  /* ---------------------------------------------------------------------- */

  /** The positions of the records sent by `s`, oldest first: a reference definition by filtering. */
  function Positions(a: seq<Message>, s: Address): (ps: seq<nat>)
    ensures forall k :: 0 <= k < |ps| ==> ps[k] < |a|
  {
    if |a| == 0 then []
    else Positions(a[..|a| - 1], s) + if a[|a| - 1].sender == s then [|a| - 1] else []
  }

  /** `Positions` lists exactly the records sent by `s`, in increasing order. */
  lemma {:induction false} PositionsExact(a: seq<Message>, s: Address)
    ensures forall i :: i in Positions(a, s) <==> 0 <= i < |a| && a[i].sender == s
    ensures forall k, l :: 0 <= k < l < |Positions(a, s)| ==> Positions(a, s)[k] < Positions(a, s)[l]
  {
    if |a| > 0 {
      var init := a[..|a| - 1];
      PositionsExact(init, s);
      forall i | 0 <= i < |a| - 1
        ensures a[i] == init[i]
      {
      }
    }
  }

  /** The sender index built by appending the records in order: each sender maps to its positions, oldest first. */
  function AddressIndexOf(a: seq<Message>): map<Address, seq<nat>>
  {
    if |a| == 0 then map[]
    else
      var prev := AddressIndexOf(a[..|a| - 1]);
      var s := a[|a| - 1].sender;
      prev[s := (if s in prev then prev[s] else []) + [|a| - 1]]
  }

  /** A sender is indexed exactly when it sent something, and its entry is the list of its positions. */
  lemma {:induction false} AddressIndexIsPositions(a: seq<Message>, s: Address)
    ensures s in AddressIndexOf(a) <==> |Positions(a, s)| > 0
    ensures s in AddressIndexOf(a) ==> AddressIndexOf(a)[s] == Positions(a, s)
  {
    if |a| > 0 {
      AddressIndexIsPositions(a[..|a| - 1], s);
    }
  }

  /* ---------------------------------------------------------------------- */
  /* filterByAddress                                                         */
  /* ---------------------------------------------------------------------- */

  /** The records at positions `ps`, newest position last in `ps` first, each masked at `now`. */
  function Listed(a: seq<Message>, ps: seq<nat>, now: int): (r: seq<Message>)
    requires forall k :: 0 <= k < |ps| ==> ps[k] < |a|
    ensures |r| == |ps|
  {
    if |ps| == 0 then []
    else [Masked(a[ps[|ps| - 1]], now)] + Listed(a, ps[..|ps| - 1], now)
  }

  /** Keeps the records that are not private, in order. */
  function Public(ms: seq<Message>): (r: seq<Message>)
    ensures forall k :: 0 <= k < |r| ==> !r[k].isPrivate
    ensures |r| <= |ms|
  {
    if |ms| == 0 then []
    else (if ms[0].isPrivate then [] else [ms[0]]) + Public(ms[1..])
  }

  lemma {:induction false} PublicAppends(x: seq<Message>, y: seq<Message>)
    ensures Public(x + y) == Public(x) + Public(y)
  {
    if |x| > 0 {
      assert (x + y)[1..] == x[1..] + y;
      PublicAppends(x[1..], y);
    } else {
      assert x + y == y;
    }
  }

  /** A message `m` is in `Public(ms)` exactly when it is in `ms` and not private. */
  lemma {:induction false} PublicMembers(ms: seq<Message>, m: Message)
    ensures m in Public(ms) <==> m in ms && !m.isPrivate
  {
    if |ms| > 0 {
      PublicMembers(ms[1..], m);
      assert ms == [ms[0]] + ms[1..];
    }
  }

  /**
   * What `filterByAddress(addr)` shows `caller` at time `now`: the records
   * sent by `addr`, newest first, masked until their release time, with the
   * private ones dropped unless the caller is `addr` itself.
   */
  function AddressView(a: seq<Message>, addr: Address, caller: Address, now: int): seq<Message>
  {
    if |a| == 0 then []
    else
      var m := a[|a| - 1];
      (if m.sender == addr && (caller == addr || !m.isPrivate) then [Masked(m, now)] else [])
        + AddressView(a[..|a| - 1], addr, caller, now)
  }

  /** Listing positions inside a prefix reads the same records from the prefix. */
  lemma {:induction false} ListedInPrefix(a: seq<Message>, n: nat, ps: seq<nat>, now: int)
    requires n <= |a|
    requires forall k :: 0 <= k < |ps| ==> ps[k] < n
    ensures Listed(a, ps, now) == Listed(a[..n], ps, now)
  {
    if |ps| > 0 {
      ListedInPrefix(a, n, ps[..|ps| - 1], now);
    }
  }

  /**
   * Reversing the sender's positions, masking, and filtering the private
   * records for a stranger gives exactly `AddressView`.
   */
  lemma {:induction false} ListedIsAddressView(a: seq<Message>, addr: Address, caller: Address, now: int)
    ensures var listed := Listed(a, Positions(a, addr), now);
      (if caller == addr then listed else Public(listed)) == AddressView(a, addr, caller, now)
  {
    if |a| > 0 {
      var init := a[..|a| - 1];
      var m := a[|a| - 1];
      var ps0 := Positions(init, addr);
      ListedIsAddressView(init, addr, caller, now);
      ListedInPrefix(a, |a| - 1, ps0, now);
      var head := if m.sender == addr then [Masked(m, now)] else [];
      if m.sender == addr {
        assert Positions(a, addr) == ps0 + [|a| - 1];
        assert (ps0 + [|a| - 1])[..|ps0|] == ps0;
      } else {
        assert Positions(a, addr) == ps0;
      }
      assert Listed(a, Positions(a, addr), now) == head + Listed(init, ps0, now);
      PublicAppends(head, Listed(init, ps0, now));
    }
  }

  /** Every record `filterByAddress` shows was sent by `addr`, and a stranger sees no private record. */
  lemma {:induction false} AddressViewShowsOnlyTheSender(a: seq<Message>, addr: Address, caller: Address, now: int)
    ensures forall m :: m in AddressView(a, addr, caller, now) ==>
      m.sender == addr && (caller != addr ==> !m.isPrivate) && (m.releaseTs > now ==> m.text == [])
  {
    if |a| > 0 {
      AddressViewShowsOnlyTheSender(a[..|a| - 1], addr, caller, now);
    }
  }

  /** The view holds one record for each record `addr` sent that `caller` may see. */
  lemma {:induction false} AddressViewCount(a: seq<Message>, addr: Address, now: int)
    ensures |AddressView(a, addr, addr, now)| == |Positions(a, addr)|
  {
    if |a| > 0 {
      AddressViewCount(a[..|a| - 1], addr, now);
    }
  }

  /* ---------------------------------------------------------------------- */
  /* getLastMessageId                                                        */
  /* ---------------------------------------------------------------------- */

  /** The last element of a non-empty list of positions is the newest record sent by `s`. */
  lemma NewestPosition(a: seq<Message>, s: Address)
    requires |Positions(a, s)| > 0
    ensures var k := Positions(a, s)[|Positions(a, s)| - 1];
      k < |a| && a[k].sender == s && forall j :: k < j < |a| ==> a[j].sender != s
  {
    var ps := Positions(a, s);
    var k := ps[|ps| - 1];
    PositionsExact(a, s);
    assert k in ps;
    forall l | 0 <= l < |ps|
      ensures ps[l] <= k
    {
      if l < |ps| - 1 {
        assert ps[l] < ps[|ps| - 1];
      }
    }
  }

  /* ---------------------------------------------------------------------- */
  /* getRecentMessages                                                       */
  /* ---------------------------------------------------------------------- */

  /**
   * The records the scan of `getRecentMessages` passes over: someone else's
   * private record, and, when a timestamp `ts` is given (a non-zero one), a
   * record released at or before `ts`.
   */
  predicate Skipped(m: Message, caller: Address, ts: int)
  {
    (m.isPrivate && caller != m.sender) || (ts != 0 && m.releaseTs <= ts)
  }

  /** The records the scan keeps: not skipped and already released at `now`. */
  predicate Listable(m: Message, caller: Address, ts: int, now: int)
  {
    !Skipped(m, caller, ts) && m.releaseTs <= now
  }

  /** Every listable record, newest first. */
  function Released(a: seq<Message>, caller: Address, ts: int, now: int): seq<Message>
  {
    if |a| == 0 then []
    else
      var m := a[|a| - 1];
      (if Listable(m, caller, ts, now) then [m] else []) + Released(a[..|a| - 1], caller, ts, now)
  }

  /** `Released` holds exactly the listable records of the archive. */
  lemma {:induction false} ReleasedMembers(a: seq<Message>, caller: Address, ts: int, now: int, m: Message)
    ensures m in Released(a, caller, ts, now) <==> m in a && Listable(m, caller, ts, now)
  {
    if |a| > 0 {
      var init := a[..|a| - 1];
      ReleasedMembers(init, caller, ts, now, m);
      assert a == init + [a[|a| - 1]];
    }
  }

  /** The newer part of the archive comes first in `Released`. */
  lemma {:induction false} ReleasedSplits(a: seq<Message>, j: nat, caller: Address, ts: int, now: int)
    requires j <= |a|
    ensures Released(a, caller, ts, now) == Released(a[j..], caller, ts, now) + Released(a[..j], caller, ts, now)
    decreases |a| - j
  {
    if j < |a| {
      var init := a[..|a| - 1];
      ReleasedSplits(init, j, caller, ts, now);
      assert init[j..] == a[j..|a| - 1];
      assert a[j..][..|a[j..]| - 1] == init[j..];
      assert a[j..][|a[j..]| - 1] == a[|a| - 1];
      assert init[..j] == a[..j];
    } else {
      assert a[j..] == [];
      assert a[..j] == a;
    }
  }

  /** Scanning one record further back appends it to `Released` when it is listable. */
  lemma ReleasedStep(a: seq<Message>, i: nat, caller: Address, ts: int, now: int)
    requires i < |a|
    ensures Released(a[i..], caller, ts, now)
      == Released(a[i + 1..], caller, ts, now) + if Listable(a[i], caller, ts, now) then [a[i]] else []
  {
    var b := a[i..];
    ReleasedSplits(b, 1, caller, ts, now);
    assert b[1..] == a[i + 1..];
    assert b[..1] == [a[i]];
    assert [a[i]][..0] == [];
  }

  /** The position of the newest record the scan does not skip, if any. */
  function NewestUnskipped(a: seq<Message>, caller: Address, ts: int): (r: Option<nat>)
    ensures r.Some? ==> r.value < |a| && !Skipped(a[r.value], caller, ts)
    ensures r.Some? ==> forall j :: r.value < j < |a| ==> Skipped(a[j], caller, ts)
    ensures r.None? ==> forall j :: 0 <= j < |a| ==> Skipped(a[j], caller, ts)
  {
    if |a| == 0 then None
    else if !Skipped(a[|a| - 1], caller, ts) then Some(|a| - 1)
    else NewestUnskipped(a[..|a| - 1], caller, ts)
  }

  /**
   * What `getRecentMessages(cnt, ts)` returns. Without `cnt`, every listable
   * record, newest first. With `cnt >= 1`, the newest `cnt` of them. With
   * `cnt <= 0` the scan stops at the first record it does not skip, so the
   * result is that record when it is released and nothing otherwise.
   */
  function Recent(a: seq<Message>, cnt: Option<int>, caller: Address, ts: int, now: int): (r: seq<Message>)
    ensures cnt.None? ==> r == Released(a, caller, ts, now)
    ensures cnt.Some? && cnt.value >= 1 ==> |r| <= cnt.value
    ensures cnt.Some? && cnt.value <= 0 ==> |r| <= 1
  {
    var e := Released(a, caller, ts, now);
    match cnt
    case None => e
    case Some(c) =>
      if c >= 1 then (if |e| <= c then e else e[..c])
      else
        match NewestUnskipped(a, caller, ts)
        case None => []
        case Some(k) => if a[k].releaseTs <= now then [a[k]] else []
  }

  /** Each record `getRecentMessages` returns is in the archive, released, and visible to the caller. */
  lemma RecentIsListable(a: seq<Message>, cnt: Option<int>, caller: Address, ts: int, now: int)
    ensures forall m :: m in Recent(a, cnt, caller, ts, now) ==> m in a && Listable(m, caller, ts, now)
  {
    forall m | m in Recent(a, cnt, caller, ts, now)
      ensures m in a && Listable(m, caller, ts, now)
    {
      var e := Released(a, caller, ts, now);
      if cnt.None? || cnt.value >= 1 {
        assert m in e;
        ReleasedMembers(a, caller, ts, now, m);
      }
    }
  }
}
