/** The all-or-nothing protocol installers of `lib/hand.c`, over a model of the firmware's protocol
    database (section 7.3 of the UEFI Specification 2.10). */
module Handles {
  import opened Wrappers

  // identifiers: only their equality matters
  type Handle = int
  type Guid = int
  type Interface = int

  datatype Status = Success | OutOfResources | InvalidParameter | NotFound | AccessDenied

  /** The interfaces installed on one handle. */
  type Protocols = map<Guid, Interface>

  /** A handle is in the database as long as it has a protocol. */
  type Database = map<Handle, Protocols>

  const TPL_NOTIFY: nat := 16

  function On(db: Database, h: Handle): Protocols {
    if h in db then db[h] else map[]
  }

  /** The database after the protocols of `h` become `ps`. */
  function Put(db: Database, h: Handle, ps: Protocols): Database {
    if ps == map[] then db - {h} else db[h := ps]
  }

  ghost predicate WellFormed(db: Database) {
    forall h :: h in db ==> db[h] != map[]
  }

  lemma PutBack(db: Database, h: Handle, ps: Protocols)
    requires WellFormed(db)
    ensures Put(Put(db, h, ps), h, On(db, h)) == db
    ensures On(Put(db, h, ps), h) == ps
    ensures WellFormed(Put(db, h, ps))
  {
  }

  lemma PutSame(db: Database, h: Handle)
    requires WellFormed(db)
    ensures Put(db, h, On(db, h)) == db
  {
  }

  lemma PutTwice(db: Database, h: Handle, ps: Protocols, qs: Protocols)
    ensures Put(Put(db, h, ps), h, qs) == Put(db, h, qs)
  {
  }

  /** There is always a handle the database does not know. */
  lemma {:induction false} UnusedHandle(known: set<Handle>) returns (h: Handle)
    ensures forall k :: k in known ==> k < h
    decreases |known|
  {
    if k :| k in known {
      var other := UnusedHandle(known - {k});
      h := if k < other then other else k + 1;
      assert forall x :: x in known ==> x == k || x in known - {k};
    } else {
      h := 0;
    }
  }

  /** The boot services the library calls.  What the environment decides (whether pool memory is left,
      whether an agent gives an interface up, which handle is new) comes in as an argument. */
  class Firmware {
    var db: Database
    var tpl: nat

    method RaiseTPL(newTpl: nat) returns (oldTpl: nat)
      requires tpl <= newTpl
      modifies this`tpl
      ensures tpl == newTpl && oldTpl == old(tpl)
    {
      oldTpl := tpl;
      tpl := newTpl;
    }

    method RestoreTPL(oldTpl: nat)
      requires oldTpl <= tpl
      modifies this`tpl
      ensures tpl == oldTpl
    {
      tpl := oldTpl;
    }

    /** A null handle asks for a new one; a protocol can be on a handle only once. */
    method InstallProtocolInterface(handle: Option<Handle>, p: Guid, i: Interface, unused: Handle, outOfPool: bool)
      returns (status: Status, handle': Option<Handle>)
      requires WellFormed(db) && unused !in db
      modifies this`db
      ensures status == Success <==>
              !outOfPool && (handle.Some? ==> handle.value in old(db) && p !in old(db)[handle.value])
      ensures status == InvalidParameter <==>
              handle.Some? && (handle.value in old(db) ==> p in old(db)[handle.value])
      ensures status == Success || status == InvalidParameter || status == OutOfResources
      ensures status == Success ==>
                && handle' == (if handle.Some? then handle else Some(unused))
                && db == Put(old(db), handle'.value, On(old(db), handle'.value)[p := i])
      ensures status != Success ==> db == old(db) && handle' == handle
    {
      if handle.Some? && (handle.value !in db || p in db[handle.value]) {
        return InvalidParameter, handle;
      }
      if outOfPool {
        return OutOfResources, handle;
      }
      handle' := if handle.Some? then handle else Some(unused);
      ghost var ps := On(db, handle'.value)[p := i];
      assert p in ps;
      db := db[handle'.value := On(db, handle'.value)[p := i]];
      status := Success;
    }

    /** An agent that uses the interface may refuse to give it up. */
    method UninstallProtocolInterface(h: Handle, p: Guid, i: Interface, refused: bool) returns (status: Status)
      modifies this`db
      ensures db == if refused then old(db) else Uninstalled(old(db), h, p, i)
      ensures status == Success <==> !refused && p in On(old(db), h) && On(old(db), h)[p] == i
      ensures status == AccessDenied <==> refused && p in On(old(db), h) && On(old(db), h)[p] == i
    {
      if p !in On(db, h) || On(db, h)[p] != i {
        return NotFound;
      }
      if refused {
        return AccessDenied;
      }
      db := Put(db, h, On(db, h) - {p});
      status := Success;
    }

    method ReinstallProtocolInterface(h: Handle, p: Guid, oldI: Interface, newI: Interface, refused: bool)
      returns (status: Status)
      modifies this`db
      ensures status == Success <==> !refused && p in On(old(db), h) && On(old(db), h)[p] == oldI
      ensures status == AccessDenied <==> refused && p in On(old(db), h) && On(old(db), h)[p] == oldI
      ensures status == Success || status == AccessDenied || status == NotFound
      ensures db == if status == Success then Put(old(db), h, On(old(db), h)[p := newI]) else old(db)
    {
      if p !in On(db, h) || On(db, h)[p] != oldI {
        return NotFound;
      }
      if refused {
        return AccessDenied;
      }
      assert p in On(db, h)[p := newI];
      db := db[h := db[h][p := newI]];
      status := Success;
    }
  }

  function Uninstalled(db: Database, h: Handle, p: Guid, i: Interface): Database {
    if p in On(db, h) && On(db, h)[p] == i then Put(db, h, On(db, h) - {p}) else db
  }

  // ----- install and uninstall

  datatype Pair = Pair(protocol: Guid, iface: Interface)

  /** The pairs of a list as a map, later ones winning. */
  function Bindings(list: seq<Pair>): Protocols {
    if list == [] then map[]
    else Bindings(list[..|list| - 1])[list[|list| - 1].protocol := list[|list| - 1].iface]
  }

  ghost predicate DistinctProtocols(list: seq<Pair>) {
    forall i, j :: 0 <= i < j < |list| ==> list[i].protocol != list[j].protocol
  }

  /** Every pair of the list, and nothing else, is new on the handle. */
  ghost predicate InstalledOn(before: Database, after: Database, h: Handle, list: seq<Pair>) {
    && DistinctProtocols(list)
    && (forall k :: 0 <= k < |list| ==> list[k].protocol !in On(before, h))
    && after == if list == [] then before else Put(before, h, On(before, h) + Bindings(list))
  }

  /** Uninstalling the pairs first to last, except where it is refused. */
  function UninstalledAll(db: Database, h: Handle, list: seq<Pair>, refused: seq<bool>): Database
    requires |refused| == |list|
    decreases |list|
  {
    if list == [] then db
    else
      var next := if refused[0] then db else Uninstalled(db, h, list[0].protocol, list[0].iface);
      UninstalledAll(next, h, list[1..], refused[1..])
  }

  /** What is left of the protocols of a handle after uninstalling the pairs. */
  function Remaining(ps: Protocols, list: seq<Pair>, refused: seq<bool>): Protocols
    requires |refused| == |list|
    decreases |list|
  {
    if list == [] then ps
    else
      var p := list[0];
      var left := if !refused[0] && p.protocol in ps && ps[p.protocol] == p.iface then ps - {p.protocol} else ps;
      Remaining(left, list[1..], refused[1..])
  }

  lemma {:induction false} UninstalledIsRemaining(db: Database, h: Handle, ps: Protocols, list: seq<Pair>,
                                                  refused: seq<bool>)
    requires WellFormed(db) && |refused| == |list|
    ensures UninstalledAll(Put(db, h, ps), h, list, refused) == Put(db, h, Remaining(ps, list, refused))
    decreases |list|
  {
    hide Put, WellFormed;
    if list != [] {
      var p := list[0];
      PutBack(db, h, ps);
      PutTwice(db, h, ps, ps - {p.protocol});
      var left := if !refused[0] && p.protocol in ps && ps[p.protocol] == p.iface then ps - {p.protocol} else ps;
      UninstalledIsRemaining(db, h, left, list[1..], refused[1..]);
    }
  }

  lemma {:induction false} BindingsCons(list: seq<Pair>)
    requires DistinctProtocols(list) && list != []
    ensures DistinctProtocols(list[1..]) && list[0].protocol !in Bindings(list[1..])
    ensures Bindings(list) == Bindings(list[1..])[list[0].protocol := list[0].iface]
    decreases |list|
  {
    var n := |list|;
    if n > 1 {
      var front := list[..n - 1];
      BindingsCons(front);
      assert front[1..] == list[1..][..n - 2];
      assert list[1..][n - 2] == list[n - 1];
    }
  }

  lemma {:induction false} BindingsKeys(list: seq<Pair>, k: nat)
    requires k < |list|
    ensures list[k].protocol in Bindings(list)
    decreases |list|
  {
    if k < |list| - 1 {
      BindingsKeys(list[..|list| - 1], k);
    }
  }

  /** Uninstalling, first to last, what was installed leaves what was there before. */
  lemma {:induction false} RemainingUndoes(base: Protocols, list: seq<Pair>, refused: seq<bool>)
    requires DistinctProtocols(list) && forall k :: 0 <= k < |list| ==> list[k].protocol !in base
    requires |refused| == |list| && true !in refused
    ensures Remaining(base + Bindings(list), list, refused) == base
    decreases |list|
  {
    if list == [] {
      assert base + map[] == base;
    } else {
      BindingsCons(list);
      var p := list[0].protocol;
      assert base + Bindings(list) - {p} == base + Bindings(list[1..]);
      assert forall k :: 0 <= k < |list[1..]| ==> list[1..][k] == list[k + 1];
      RemainingUndoes(base, list[1..], refused[1..]);
    }
  }

  /** A protocol whose uninstalls are all refused stays. */
  lemma {:induction false} RefusedStays(ps: Protocols, list: seq<Pair>, refused: seq<bool>, p: Guid)
    requires |refused| == |list| && p in ps
    requires forall k :: 0 <= k < |list| && list[k].protocol == p ==> refused[k]
    ensures p in Remaining(ps, list, refused)
    decreases |list|
  {
    if list != [] {
      var c := list[0];
      var left := if !refused[0] && c.protocol in ps && ps[c.protocol] == c.iface then ps - {c.protocol} else ps;
      assert forall k :: 0 <= k < |list[1..]| ==> list[1..][k] == list[k + 1] && refused[1..][k] == refused[k + 1];
      RefusedStays(left, list[1..], refused[1..], p);
    }
  }

  /** Uninstalling a list undoes installing it exactly when no agent refuses. */
  lemma UninstallUndoesIff(before: Database, after: Database, h: Handle, list: seq<Pair>, refused: seq<bool>)
    requires WellFormed(before) && InstalledOn(before, after, h, list) && |refused| == |list|
    ensures UninstalledAll(after, h, list, refused) == before <==> true !in refused
  {
    if list != [] {
      var base := On(before, h);
      UninstalledIsRemaining(before, h, base + Bindings(list), list, refused);
      var left := Remaining(base + Bindings(list), list, refused);
      PutSame(before, h);
      PutBack(before, h, left);
      if true !in refused {
        RemainingUndoes(base, list, refused);
      } else {
        var k :| 0 <= k < |refused| && refused[k];
        BindingsKeys(list, k);
        RefusedStays(base + Bindings(list), list, refused, list[k].protocol);
      }
    }
  }

  /** One more pair installed. */
  lemma InstallStep(before: Database, now: Database, h: Handle, list: seq<Pair>, index: nat)
    requires WellFormed(before) && index < |list| && InstalledOn(before, now, h, list[..index])
    requires list[index].protocol !in On(now, h)
    ensures InstalledOn(before, Put(now, h, On(now, h)[list[index].protocol := list[index].iface]), h, list[..index + 1])
  {
    var done, more, base, pair := list[..index], list[..index + 1], On(before, h), list[index];
    if index > 0 {
      PutBack(before, h, base + Bindings(done));
    } else {
      assert base + Bindings(done) == base;
      PutSame(before, h);
    }
    PutTwice(before, h, base + Bindings(done), (base + Bindings(done))[pair.protocol := pair.iface]);
    assert more[..index] == done;
    assert (base + Bindings(done))[pair.protocol := pair.iface] == base + Bindings(more);
    forall k | 0 <= k < index
      ensures more[k] == done[k] && more[k].protocol != pair.protocol
    {
      BindingsKeys(done, k);
    }
  }

  // ----- the database, interface by interface

  /** What was installed: every pair of the list on its handle, all else as it was. */
  lemma InstalledReads(before: Database, after: Database, h: Handle, list: seq<Pair>)
    requires WellFormed(before) && InstalledOn(before, after, h, list)
    ensures forall k :: 0 <= k < |list| ==>
              h in after && list[k].protocol in after[h] && after[h][list[k].protocol] == list[k].iface
    ensures forall p :: p in On(before, h) ==> p in On(after, h) && On(after, h)[p] == On(before, h)[p]
    ensures forall p :: p in On(after, h) ==> p in On(before, h) || exists k :: 0 <= k < |list| && list[k].protocol == p
    ensures forall g :: g != h ==> (g in after <==> g in before) && On(after, g) == On(before, g)
  {
    if list != [] {
      PutBack(before, h, On(before, h) + Bindings(list));
    }
    forall k | 0 <= k < |list|
      ensures list[k].protocol in Bindings(list) && Bindings(list)[list[k].protocol] == list[k].iface
    {
      BindingAt(list, k);
    }
    forall p | p in Bindings(list)
      ensures exists k :: 0 <= k < |list| && list[k].protocol == p
    {
      BindingsFrom(list, p);
    }
  }

  lemma {:induction false} BindingAt(list: seq<Pair>, k: nat)
    requires DistinctProtocols(list) && k < |list|
    ensures list[k].protocol in Bindings(list) && Bindings(list)[list[k].protocol] == list[k].iface
    decreases |list|
  {
    if k < |list| - 1 {
      BindingAt(list[..|list| - 1], k);
    }
  }

  /** What uninstalling leaves: of the protocols listed those that are refused or have another interface, and
      all that are not listed. */
  lemma UninstalledReads(db: Database, h: Handle, list: seq<Pair>, refused: seq<bool>)
    requires WellFormed(db) && |refused| == |list| && DistinctProtocols(list)
    ensures var after := UninstalledAll(db, h, list, refused);
            && (forall k :: 0 <= k < |list| ==>
                  var p := list[k].protocol;
                  p in On(after, h) <==> p in On(db, h) && (refused[k] || On(db, h)[p] != list[k].iface))
            && (forall p :: p in On(after, h) ==> p in On(db, h) && On(after, h)[p] == On(db, h)[p])
            && (forall p :: p in On(db, h) && (forall k :: 0 <= k < |list| ==> list[k].protocol != p) ==>
                  p in On(after, h))
            && (h in after <==> On(after, h) != map[])
            && (forall g :: g != h ==> (g in after <==> g in db) && On(after, g) == On(db, g))
  {
    hide UninstalledAll, Remaining;
    var ps := On(db, h);
    PutSame(db, h);
    UninstalledIsRemaining(db, h, ps, list, refused);
    PutBack(db, h, Remaining(ps, list, refused));
    RemainingReads(ps, list, refused);
  }

  lemma {:induction false} RemainingReads(ps: Protocols, list: seq<Pair>, refused: seq<bool>)
    requires |refused| == |list| && DistinctProtocols(list)
    ensures var left := Remaining(ps, list, refused);
            && (forall k :: 0 <= k < |list| ==>
                  var p := list[k].protocol;
                  p in left <==> p in ps && (refused[k] || ps[p] != list[k].iface))
            && (forall p :: p in left ==> p in ps && left[p] == ps[p])
            && (forall p :: p in ps && (forall k :: 0 <= k < |list| ==> list[k].protocol != p) ==> p in left)
    decreases |list|
  {
    if list != [] {
      var c, rest := list[0], list[1..];
      var left := if !refused[0] && c.protocol in ps && ps[c.protocol] == c.iface then ps - {c.protocol} else ps;
      assert forall k :: 0 <= k < |rest| ==> rest[k] == list[k + 1] && refused[1..][k] == refused[k + 1];
      RemainingReads(left, rest, refused[1..]);
      assert forall k :: 0 < k < |list| ==> list[k] == rest[k - 1];
    }
  }

  /** `LibInstallProtocolInterfaces`: all of the list, or none of it when no agent refuses to give back what
      was installed.  `outOfPool` is what the pool has for each call and `refused` what the agents would do;
      `done` pairs had been installed on `peakHandle` when the failure came, and `peak` was the database then. */
  method LibInstallProtocolInterfaces(fw: Firmware, handle: Option<Handle>, list: seq<Pair>, outOfPool: seq<bool>,
                                      refused: seq<bool>)
    returns (status: Status, handle': Option<Handle>, ghost done: nat, ghost peak: Database, ghost peakHandle: Handle)
    requires WellFormed(fw.db) && fw.tpl <= TPL_NOTIFY && |outOfPool| == |refused| == |list|
    modifies fw
    ensures fw.tpl == old(fw.tpl)
    // success: a known handle, new and distinct protocols, and memory for each of them
    ensures status == Success <==>
            && true !in outOfPool
            && (forall i, j :: 0 <= i < j < |list| ==> list[i].protocol != list[j].protocol)
            && (handle.Some? ==> forall k :: 0 <= k < |list| ==>
                  handle.value in old(fw.db) && list[k].protocol !in old(fw.db)[handle.value])
    ensures status == Success && list == [] ==> fw.db == old(fw.db) && handle' == handle
    ensures status == Success && list != [] ==>
              && handle'.Some? && InstalledOn(old(fw.db), fw.db, handle'.value, list)
              && (if handle.Some? then handle' == handle else handle'.value !in old(fw.db))
    // failure: the first call that cannot succeed, with its status
    ensures status != Success ==>
              && done < |list| && true !in outOfPool[..done] && DistinctProtocols(list[..done])
              && (handle.Some? ==> forall k :: 0 <= k < done ==>
                    handle.value in old(fw.db) && list[k].protocol !in old(fw.db)[handle.value])
              && (status == InvalidParameter || (status == OutOfResources && outOfPool[done]))
              && (status == InvalidParameter <==>
                  || (handle.Some? && (handle.value in old(fw.db) ==> list[done].protocol in old(fw.db)[handle.value]))
                  || exists k :: 0 <= k < done && list[k].protocol == list[done].protocol)
    ensures status != Success ==>
              && handle' == handle
              && InstalledOn(old(fw.db), peak, peakHandle, list[..done])
              && fw.db == UninstalledAll(peak, peakHandle, list[..done], refused[..done])
              && (fw.db == old(fw.db) <==> true !in refused[..done])
  {
    hide Put, Bindings, UninstalledAll;
    var oldTpl := fw.RaiseTPL(TPL_NOTIFY);
    var oldHandle := handle;
    var index := 0;
    status := Success;
    handle' := handle;
    ghost var before := fw.db;
    while index < |list|
      invariant 0 <= index <= |list| && status == Success && fw.tpl == TPL_NOTIFY
      invariant WellFormed(fw.db) && true !in outOfPool[..index]
      invariant handle.Some? || index == 0 ==> handle' == handle
      invariant handle.Some? && index > 0 ==> handle.value in before
      invariant handle.None? && index > 0 ==> handle'.Some? && handle'.value !in before
      invariant handle'.None? ==> fw.db == before
      invariant handle'.Some? ==> InstalledOn(before, fw.db, handle'.value, list[..index])
    {
      ghost var candidate := UnusedHandle(fw.db.Keys);
      assert candidate !in fw.db;
      var unused: Handle :| unused !in fw.db;
      ghost var now, asked := fw.db, handle';
      var pair := list[index];
      status, handle' := fw.InstallProtocolInterface(handle', pair.protocol, pair.iface, unused, outOfPool[index]);
      if asked.Some? {
        NextIsNew(before, now, asked.value, list, index);
      }
      if status != Success {
        break;
      }
      InstallStep(before, now, handle'.value, list, index);
      PutBack(now, handle'.value, On(now, handle'.value)[pair.protocol := pair.iface]);
      index := index + 1;
    }
    assert list[..|list|] == list && outOfPool[..|list|] == outOfPool;
    done, peak, peakHandle := index, fw.db, if handle'.Some? then handle'.value else 0;
    if status != Success {
      NothingUninstalled(peak, peakHandle);
      if index > 0 {
        RollBack(fw, handle'.value, list, index, refused, before);
      }
      handle' := oldHandle;
    }
    fw.RestoreTPL(oldTpl);
  }

  lemma NothingUninstalled(db: Database, h: Handle)
    ensures UninstalledAll(db, h, [], []) == db
  {
  }

  /** Whether the handle is known while a list is being installed, and the next protocol new on it. */
  lemma NextIsNew(before: Database, now: Database, h: Handle, list: seq<Pair>, index: nat)
    requires WellFormed(before) && index < |list| && InstalledOn(before, now, h, list[..index])
    ensures h in now <==> h in before || index > 0
    ensures list[index].protocol in On(now, h) <==>
            || list[index].protocol in On(before, h)
            || exists k :: 0 <= k < index && list[k].protocol == list[index].protocol
  {
    var p, done := list[index].protocol, list[..index];
    if index > 0 {
      PutBack(before, h, On(before, h) + Bindings(done));
      BindingsKeys(done, 0);
    }
    if k :| 0 <= k < index && list[k].protocol == p {
      BindingsKeys(done, k);
    }
    if p in Bindings(done) {
      BindingsFrom(done, p);
    }
  }

  lemma {:induction false} BindingsFrom(list: seq<Pair>, p: Guid)
    requires p in Bindings(list)
    ensures exists k :: 0 <= k < |list| && list[k].protocol == p
    decreases |list|
  {
    var n := |list| - 1;
    if p == list[n].protocol {
    } else {
      BindingsFrom(list[..n], p);
      var k :| 0 <= k < n && list[..n][k].protocol == p;
      assert list[k].protocol == p;
    }
  }

  /** The undo loop: the first `installed` pairs are uninstalled in the order they were installed. */
  method RollBack(fw: Firmware, handle: Handle, list: seq<Pair>, installed: nat, refused: seq<bool>,
                  ghost before: Database)
    requires installed <= |list| == |refused|
    requires WellFormed(before) && InstalledOn(before, fw.db, handle, list[..installed])
    modifies fw`db
    ensures fw.db == UninstalledAll(old(fw.db), handle, list[..installed], refused[..installed])
    ensures fw.db == before <==> true !in refused[..installed]
  {
    UninstallUndoesIff(before, fw.db, handle, list[..installed], refused[..installed]);
    ghost var result := UninstalledAll(fw.db, handle, list[..installed], refused[..installed]);
    var index, k := installed, 0;
    while index != 0
      invariant 0 <= index <= installed && k == installed - index
      invariant UninstalledAll(fw.db, handle, list[k..installed], refused[k..installed]) == result
    {
      assert list[k..installed][0] == list[k] && list[k..installed][1..] == list[k + 1..installed];
      assert refused[k..installed][0] == refused[k] && refused[k..installed][1..] == refused[k + 1..installed];
      var status := fw.UninstallProtocolInterface(handle, list[k].protocol, list[k].iface, refused[k]);
      k := k + 1;
      index := index - 1;
    }
  }

  /** `LibUninstallProtocolInterfaces`: errors are reported and passed over. */
  method LibUninstallProtocolInterfaces(fw: Firmware, handle: Handle, list: seq<Pair>, refused: seq<bool>)
    requires |refused| == |list|
    modifies fw`db
    ensures fw.db == UninstalledAll(old(fw.db), handle, list, refused)
  {
    var k := 0;
    while k < |list|
      invariant k <= |list|
      invariant UninstalledAll(fw.db, handle, list[k..], refused[k..])
             == UninstalledAll(old(fw.db), handle, list, refused)
    {
      assert list[k..][0] == list[k] && list[k..][1..] == list[k + 1..];
      assert refused[k..][0] == refused[k] && refused[k..][1..] == refused[k + 1..];
      var status := fw.UninstallProtocolInterface(handle, list[k].protocol, list[k].iface, refused[k]);
      k := k + 1;
    }
  }

  // ----- reinstall

  datatype Change = Change(protocol: Guid, oldI: Interface, newI: Interface)

  predicate Accepted(ps: Protocols, c: Change) {
    c.protocol in ps && ps[c.protocol] == c.oldI
  }

  /** Every change of the list finds the interface it expects. */
  predicate Applies(ps: Protocols, list: seq<Change>)
    decreases |list|
  {
    list == [] || (Accepted(ps, list[0]) && Applies(ps[list[0].protocol := list[0].newI], list[1..]))
  }

  function Applied(ps: Protocols, list: seq<Change>): Protocols
    decreases |list|
  {
    if list == [] then ps else Applied(ps[list[0].protocol := list[0].newI], list[1..])
  }

  /** The undo loop: forwards over the list, each change turned round, what is refused passed over. */
  function UndoneUnless(ps: Protocols, list: seq<Change>, refused: seq<bool>): Protocols
    requires |refused| == |list|
    decreases |list|
  {
    if list == [] then ps
    else
      var c := list[0];
      var next := if !refused[0] && c.protocol in ps && ps[c.protocol] == c.newI then ps[c.protocol := c.oldI] else ps;
      UndoneUnless(next, list[1..], refused[1..])
  }

  /** The undo loop when no agent refuses. */
  function Undone(ps: Protocols, list: seq<Change>): Protocols
    decreases |list|
  {
    if list == [] then ps
    else
      var c := list[0];
      Undone(if c.protocol in ps && ps[c.protocol] == c.newI then ps[c.protocol := c.oldI] else ps, list[1..])
  }

  lemma {:induction false} AppliesOneMore(ps: Protocols, list: seq<Change>, k: nat)
    requires k < |list| && Applies(ps, list[..k])
    ensures Applies(ps, list[..k + 1]) <==> Accepted(Applied(ps, list[..k]), list[k])
    ensures Applied(ps, list[..k + 1]) == Applied(ps, list[..k])[list[k].protocol := list[k].newI]
    decreases k
  {
    if k > 0 {
      var c := list[0];
      assert list[..k][1..] == list[1..][..k - 1] && list[..k + 1][1..] == list[1..][..k];
      AppliesOneMore(ps[c.protocol := c.newI], list[1..], k - 1);
    } else {
      assert list[..1][1..] == [];
    }
  }

  lemma {:induction false} AppliesFront(ps: Protocols, list: seq<Change>, k: nat)
    requires k <= |list| && Applies(ps, list)
    ensures Applies(ps, list[..k])
    decreases k
  {
    if k > 0 {
      assert list[..k][1..] == list[1..][..k - 1];
      AppliesFront(ps[list[0].protocol := list[0].newI], list[1..], k - 1);
    }
  }

  /** No change that made a difference is refused its undo. */
  ghost predicate NoRealRefusal(list: seq<Change>, refused: seq<bool>)
    requires |refused| == |list|
  {
    forall k :: 0 <= k < |list| && refused[k] ==> !Effective(list[k])
  }

  /** `LibReinstallProtocolInterfaces`.  The code passes the pointer to the handle where the service takes the
      handle (lib/hand.c:606 and 628); `handle` is the handle meant.  `denied` is what the agents do when a
      change is made and `refused` what they do when it is undone; `done` counts the changes made. */
  method LibReinstallProtocolInterfaces(fw: Firmware, handle: Handle, list: seq<Change>, denied: seq<bool>,
                                        refused: seq<bool>)
    returns (status: Status, ghost done: nat)
    requires WellFormed(fw.db) && fw.tpl <= TPL_NOTIFY && |denied| == |refused| == |list|
    modifies fw
    ensures fw.tpl == old(fw.tpl)
    ensures var ps := On(old(fw.db), handle);
            && (status == Success <==> Applies(ps, list) && true !in denied)
            && (status == Success ==> fw.db == Put(old(fw.db), handle, Applied(ps, list)))
    // failure: the first change that is not accepted, or denied
    ensures var ps := On(old(fw.db), handle);
            status != Success ==>
              && done < |list| && Applies(ps, list[..done]) && true !in denied[..done]
              && (status == AccessDenied || status == NotFound)
              && (status == NotFound <==> !Applies(ps, list[..done + 1]))
              && (status == AccessDenied ==> denied[done])
              && fw.db
              == Put(old(fw.db), handle, UndoneUnless(Applied(ps, list[..done]), list[..done], refused[..done]))
    ensures status != Success && Undoable(list) ==>
              (fw.db == old(fw.db) <==> NoRealRefusal(list[..done], refused[..done]))
  {
    var oldTpl := fw.RaiseTPL(TPL_NOTIFY);
    ghost var before, ps := fw.db, On(fw.db, handle);
    var index := 0;
    status := Success;
    PutSame(before, handle);
    while index < |list|
      invariant 0 <= index <= |list| && status == Success && fw.tpl == TPL_NOTIFY
      invariant Applies(ps, list[..index]) && true !in denied[..index]
      invariant fw.db == Put(before, handle, Applied(ps, list[..index]))
    {
      AppliesOneMore(ps, list, index);
      PutBack(before, handle, Applied(ps, list[..index]));
      var c := list[index];
      status := fw.ReinstallProtocolInterface(handle, c.protocol, c.oldI, c.newI, denied[index]);
      if status != Success {
        break;
      }
      PutTwice(before, handle, Applied(ps, list[..index]), Applied(ps, list[..index + 1]));
      index := index + 1;
    }
    done := index;
    assert list[..|list|] == list && denied[..|list|] == denied;
    if status != Success {
      if Applies(ps, list) {
        AppliesFront(ps, list, done + 1);
      }
      UndoChanges(fw, handle, list, index, refused, before, Applied(ps, list[..done]));
      if Undoable(list) {
        UndoRestoresUnless(ps, list, done, refused);
        PutBack(before, handle, UndoneUnless(Applied(ps, list[..done]), list[..done], refused[..done]));
      }
    }
    fw.RestoreTPL(oldTpl);
  }

  /** The undo loop of `LibReinstallProtocolInterfaces`. */
  method UndoChanges(fw: Firmware, handle: Handle, list: seq<Change>, made: nat, refused: seq<bool>,
                     ghost before: Database, ghost changed: Protocols)
    requires made <= |list| == |refused| && WellFormed(before) && fw.db == Put(before, handle, changed)
    modifies fw`db
    ensures fw.db == Put(before, handle, UndoneUnless(changed, list[..made], refused[..made]))
  {
    ghost var now := changed;
    var index, k := made, 0;
    while index != 0
      invariant 0 <= index <= made && k == made - index
      invariant fw.db == Put(before, handle, now)
      invariant UndoneUnless(now, list[k..made], refused[k..made])
             == UndoneUnless(changed, list[..made], refused[..made])
    {
      assert list[k..made][0] == list[k] && list[k..made][1..] == list[k + 1..made];
      assert refused[k..made][0] == refused[k] && refused[k..made][1..] == refused[k + 1..made];
      PutBack(before, handle, now);
      var c := list[k];
      var undo := fw.ReinstallProtocolInterface(handle, c.protocol, c.newI, c.oldI, refused[k]);
      if undo == Success {
        PutTwice(before, handle, now, now[c.protocol := c.oldI]);
        now := now[c.protocol := c.oldI];
      }
      k := k + 1;
      index := index - 1;
    }
  }

  // ----- when the undo restores

  predicate Effective(c: Change) {
    c.oldI != c.newI
  }

  /** Consecutive changes of one protocol fit together: only such a list can be applied at all. */
  ghost predicate Chained(list: seq<Change>) {
    forall i, j :: 0 <= i < j < |list| && list[i].protocol == list[j].protocol
      && (forall m :: i < m < j ==> list[m].protocol != list[i].protocol)
      ==> list[i].newI == list[j].oldI
  }

  /** The change at `j` is the second real change of its protocol. */
  ghost predicate Repeats(list: seq<Change>, j: nat)
    requires j < |list|
  {
    Effective(list[j]) && exists i :: 0 <= i < j && list[i].protocol == list[j].protocol && Effective(list[i])
  }

  /** No protocol is really changed twice by changes that can both be made before another one fails. */
  ghost predicate Undoable(list: seq<Change>) {
    forall j :: 0 <= j < |list| - 1 && Chained(list[..j + 1]) ==> !Repeats(list, j)
  }

  /** The undo restores the database wherever the list may fail. */
  ghost predicate UndoAlwaysRestores(list: seq<Change>) {
    forall ps: Protocols, k :: 0 <= k < |list| && Applies(ps, list[..k]) ==>
      Undone(Applied(ps, list[..k]), list[..k]) == ps
  }

  // One protocol at a time: what a list does to the interface `v` of `p`.

  function CellApplied(v: Interface, p: Guid, list: seq<Change>): Interface
    decreases |list|
  {
    if list == [] then v else CellApplied(if list[0].protocol == p then list[0].newI else v, p, list[1..])
  }

  predicate CellApplies(v: Interface, p: Guid, list: seq<Change>)
    decreases |list|
  {
    list == [] ||
    if list[0].protocol == p then list[0].oldI == v && CellApplies(list[0].newI, p, list[1..])
    else CellApplies(v, p, list[1..])
  }

  function CellUndone(v: Interface, p: Guid, list: seq<Change>): Interface
    decreases |list|
  {
    if list == [] then v
    else CellUndone(if list[0].protocol == p && list[0].newI == v then list[0].oldI else v, p, list[1..])
  }

  lemma {:induction false} AppliedCell(ps: Protocols, list: seq<Change>, p: Guid)
    requires Applies(ps, list) && p in ps
    ensures Applied(ps, list).Keys == ps.Keys
    ensures CellApplies(ps[p], p, list) && Applied(ps, list)[p] == CellApplied(ps[p], p, list)
    decreases |list|
  {
    if list != [] {
      AppliedCell(ps[list[0].protocol := list[0].newI], list[1..], p);
    }
  }

  lemma {:induction false} AppliedKeys(ps: Protocols, list: seq<Change>)
    requires Applies(ps, list)
    ensures Applied(ps, list).Keys == ps.Keys
    decreases |list|
  {
    if list != [] {
      AppliedKeys(ps[list[0].protocol := list[0].newI], list[1..]);
    }
  }

  lemma {:induction false} UndoneKeys(ps: Protocols, list: seq<Change>)
    ensures Undone(ps, list).Keys == ps.Keys
    decreases |list|
  {
    if list != [] {
      var c := list[0];
      UndoneKeys(if c.protocol in ps && ps[c.protocol] == c.newI then ps[c.protocol := c.oldI] else ps, list[1..]);
    }
  }

  lemma {:induction false} UndoneCell(ps: Protocols, list: seq<Change>, p: Guid)
    requires p in ps
    ensures p in Undone(ps, list) && Undone(ps, list)[p] == CellUndone(ps[p], p, list)
    decreases |list|
  {
    if list != [] {
      var c := list[0];
      UndoneCell(if c.protocol in ps && ps[c.protocol] == c.newI then ps[c.protocol := c.oldI] else ps, list[1..], p);
    }
  }

  ghost predicate Quiet(list: seq<Change>, p: Guid) {
    forall k :: 0 <= k < |list| && list[k].protocol == p ==> !Effective(list[k])
  }

  ghost predicate AtMostOnce(list: seq<Change>, p: Guid) {
    forall i, j :: 0 <= i < j < |list| && list[i].protocol == p && list[j].protocol == p && Effective(list[i])
      ==> !Effective(list[j])
  }

  lemma {:induction false} QuietCell(v: Interface, p: Guid, list: seq<Change>)
    requires Quiet(list, p)
    ensures CellUndone(v, p, list) == v
    ensures CellApplies(v, p, list) ==> CellApplied(v, p, list) == v
    decreases |list|
  {
    if list != [] {
      assert list[0].protocol == p ==> !Effective(list[0]);
      QuietCell(v, p, list[1..]);
    }
  }

  lemma {:induction false} OnceCell(v: Interface, p: Guid, list: seq<Change>)
    requires AtMostOnce(list, p) && CellApplies(v, p, list)
    ensures CellUndone(CellApplied(v, p, list), p, list) == v
    decreases |list|
  {
    if list != [] {
      var c, rest := list[0], list[1..];
      if c.protocol == p && Effective(c) {
        assert forall k :: 0 <= k < |rest| ==> rest[k] == list[k + 1];
        QuietCell(c.newI, p, rest);
        QuietCell(v, p, rest);
      } else {
        OnceCell(v, p, rest);
      }
    }
  }

  lemma {:induction false} FirstFits(ps: Protocols, list: seq<Change>, j: nat)
    requires Applies(ps, list) && j < |list| && forall i :: 0 <= i < j ==> list[i].protocol != list[j].protocol
    ensures Accepted(ps, list[j])
    decreases j
  {
    if j > 0 {
      FirstFits(ps[list[0].protocol := list[0].newI], list[1..], j - 1);
    }
  }

  lemma {:induction false} AppliesIsChained(ps: Protocols, list: seq<Change>)
    requires Applies(ps, list)
    ensures Chained(list)
    decreases |list|
  {
    if list != [] {
      var next, rest := ps[list[0].protocol := list[0].newI], list[1..];
      AppliesIsChained(next, rest);
      forall i, j | 0 <= i < j < |list| && list[i].protocol == list[j].protocol
                    && forall m :: i < m < j ==> list[m].protocol != list[i].protocol
        ensures list[i].newI == list[j].oldI
      {
        assert list[j] == rest[j - 1];
        if i == 0 {
          assert forall m :: 0 <= m < j - 1 ==> rest[m] == list[m + 1];
          FirstFits(next, rest, j - 1);
        } else {
          assert list[i] == rest[i - 1] && forall m :: i - 1 < m < j - 1 ==> rest[m] == list[m + 1];
        }
      }
    }
  }

  lemma NoRepeat(list: seq<Change>, k: nat, j: nat)
    requires Undoable(list) && j < k < |list| && Chained(list[..k])
    ensures !Repeats(list, j)
  {
    hide Chained, Repeats;
    ChainedPrefix(list[..k], j + 1);
    assert list[..k][..j + 1] == list[..j + 1];
  }

  lemma UndoableOnce(list: seq<Change>, k: nat, p: Guid)
    requires Undoable(list) && k < |list| && Chained(list[..k])
    ensures AtMostOnce(list[..k], p)
  {
    hide Chained, Undoable, Effective;
    var made := list[..k];
    forall i, j | 0 <= i < j < |made| && made[i].protocol == p && made[j].protocol == p && Effective(made[i])
      ensures !Effective(made[j])
    {
      NoRepeat(list, k, j);
      assert list[i] == made[i] && list[j] == made[j];
    }
  }

  lemma UndoRestores(ps: Protocols, list: seq<Change>, k: nat)
    requires Undoable(list) && k < |list| && Applies(ps, list[..k])
    ensures Undone(Applied(ps, list[..k]), list[..k]) == ps
  {
    hide Applies, Applied, Undone, Undoable, Chained, AtMostOnce;
    var made := list[..k];
    AppliesIsChained(ps, made);
    AppliedKeys(ps, made);
    UndoneKeys(Applied(ps, made), made);
    forall p | p in ps
      ensures Undone(Applied(ps, made), made)[p] == ps[p]
    {
      UndoableOnce(list, k, p);
      AppliedCell(ps, made, p);
      UndoneCell(Applied(ps, made), made, p);
      OnceCell(ps[p], p, made);
    }
  }

  // ----- an undo that is refused

  function CellUndoneUnless(v: Interface, p: Guid, list: seq<Change>, refused: seq<bool>): Interface
    requires |refused| == |list|
    decreases |list|
  {
    if list == [] then v
    else
      var c := list[0];
      var next := if !refused[0] && c.protocol == p && c.newI == v then c.oldI else v;
      CellUndoneUnless(next, p, list[1..], refused[1..])
  }

  lemma {:induction false} UndoneUnlessCell(ps: Protocols, list: seq<Change>, refused: seq<bool>, p: Guid)
    requires |refused| == |list| && p in ps
    ensures UndoneUnless(ps, list, refused).Keys == ps.Keys
    ensures UndoneUnless(ps, list, refused)[p] == CellUndoneUnless(ps[p], p, list, refused)
    decreases |list|
  {
    if list != [] {
      var c := list[0];
      var next := if !refused[0] && c.protocol in ps && ps[c.protocol] == c.newI then ps[c.protocol := c.oldI] else ps;
      UndoneUnlessCell(next, list[1..], refused[1..], p);
    }
  }

  lemma {:induction false} UndoneUnlessKeys(ps: Protocols, list: seq<Change>, refused: seq<bool>)
    requires |refused| == |list|
    ensures UndoneUnless(ps, list, refused).Keys == ps.Keys
    decreases |list|
  {
    if list != [] {
      var c := list[0];
      var next := if !refused[0] && c.protocol in ps && ps[c.protocol] == c.newI then ps[c.protocol := c.oldI] else ps;
      UndoneUnlessKeys(next, list[1..], refused[1..]);
    }
  }

  /** Without refusals both undo loops are one. */
  lemma {:induction false} UndoneUnlessNone(ps: Protocols, list: seq<Change>, refused: seq<bool>)
    requires |refused| == |list| && true !in refused
    ensures UndoneUnless(ps, list, refused) == Undone(ps, list)
    decreases |list|
  {
    if list != [] {
      var c := list[0];
      assert !refused[0];
      var next := if c.protocol in ps && ps[c.protocol] == c.newI then ps[c.protocol := c.oldI] else ps;
      UndoneUnlessNone(next, list[1..], refused[1..]);
    }
  }

  lemma {:induction false} QuietCellUnless(v: Interface, p: Guid, list: seq<Change>, refused: seq<bool>)
    requires |refused| == |list| && Quiet(list, p)
    ensures CellUndoneUnless(v, p, list, refused) == v
    decreases |list|
  {
    if list != [] {
      assert list[0].protocol == p ==> !Effective(list[0]);
      QuietCellUnless(v, p, list[1..], refused[1..]);
    }
  }

  /** One real change of a protocol comes back exactly when its undo is not refused. */
  lemma {:induction false} OnceCellUnless(v: Interface, p: Guid, list: seq<Change>, refused: seq<bool>)
    requires |refused| == |list| && AtMostOnce(list, p) && CellApplies(v, p, list)
    ensures CellUndoneUnless(CellApplied(v, p, list), p, list, refused) == v <==>
            forall k :: 0 <= k < |list| && list[k].protocol == p && refused[k] ==> !Effective(list[k])
    decreases |list|
  {
    if list != [] {
      var c, rest, others := list[0], list[1..], refused[1..];
      assert forall k :: 0 <= k < |rest| ==> rest[k] == list[k + 1] && others[k] == refused[k + 1];
      if c.protocol == p && Effective(c) {
        assert Quiet(rest, p);
        QuietCell(c.newI, p, rest);
        QuietCellUnless(c.newI, p, rest, others);
        QuietCellUnless(v, p, rest, others);
      } else {
        OnceCellUnless(v, p, rest, others);
        assert forall k :: 0 < k < |list| ==> list[k] == rest[k - 1] && refused[k] == others[k - 1];
      }
    }
  }

  /** Of a list that can be undone, everything comes back exactly when no real change is refused its undo. */
  lemma UndoRestoresUnless(ps: Protocols, list: seq<Change>, k: nat, refused: seq<bool>)
    requires Undoable(list) && k < |list| == |refused| && Applies(ps, list[..k])
    ensures UndoneUnless(Applied(ps, list[..k]), list[..k], refused[..k]) == ps <==>
            NoRealRefusal(list[..k], refused[..k])
  {
    hide Applies, Applied, UndoneUnless, Undoable, Chained, AtMostOnce, Effective;
    var made, kept := list[..k], refused[..k];
    AppliesIsChained(ps, made);
    AppliedKeys(ps, made);
    UndoneUnlessKeys(Applied(ps, made), made, kept);
    forall p | p in ps
      ensures UndoneUnless(Applied(ps, made), made, kept)[p] == ps[p] <==>
              forall j :: 0 <= j < |made| && made[j].protocol == p && kept[j] ==> !Effective(made[j])
    {
      UndoableOnce(list, k, p);
      AppliedCell(ps, made, p);
      UndoneUnlessCell(Applied(ps, made), made, kept, p);
      OnceCellUnless(ps[p], p, made, kept);
    }
    forall j | 0 <= j < |made|
      ensures made[j].protocol in ps
    {
      FirstKey(ps, made, j);
    }
  }

  lemma ChainedPrefix(list: seq<Change>, n: nat)
    requires Chained(list) && n <= |list|
    ensures Chained(list[..n])
  {
    forall i, j | 0 <= i < j < n && list[..n][i].protocol == list[..n][j].protocol
                  && forall m :: i < m < j ==> list[..n][m].protocol != list[..n][i].protocol
      ensures list[..n][i].newI == list[..n][j].oldI
    {
      assert forall m :: i < m < j ==> list[m] == list[..n][m];
    }
  }

  // ----- when it does not

  ghost predicate FirstsFit(ps: Protocols, list: seq<Change>) {
    forall j :: 0 <= j < |list| && (forall i :: 0 <= i < j ==> list[i].protocol != list[j].protocol) ==> Accepted(ps, list[j])
  }

  /** The protocols a chained list can be applied to. */
  lemma {:induction false} Start(list: seq<Change>) returns (ps: Protocols)
    ensures FirstsFit(ps, list)
    decreases |list|
  {
    if list == [] {
      ps := map[];
    } else {
      var rest := Start(list[1..]);
      ps := rest[list[0].protocol := list[0].oldI];
      forall j | 0 <= j < |list| && forall i :: 0 <= i < j ==> list[i].protocol != list[j].protocol
        ensures Accepted(ps, list[j])
      {
        if j > 0 {
          assert list[1..][j - 1] == list[j] && forall i :: 0 <= i < j - 1 ==> list[1..][i] == list[i + 1];
        }
      }
    }
  }

  lemma {:induction false} ChainedApplies(ps: Protocols, list: seq<Change>)
    requires Chained(list) && FirstsFit(ps, list)
    ensures Applies(ps, list)
    decreases |list|
  {
    if list != [] {
      var next, rest := ps[list[0].protocol := list[0].newI], list[1..];
      assert forall k :: 0 <= k < |rest| ==> rest[k] == list[k + 1];
      forall i, j | 0 <= i < j < |rest| && rest[i].protocol == rest[j].protocol
                    && forall m :: i < m < j ==> rest[m].protocol != rest[i].protocol
        ensures rest[i].newI == rest[j].oldI
      {
        assert forall m :: i + 1 < m < j + 1 ==> list[m] == rest[m - 1];
        assert list[i + 1].newI == list[j + 1].oldI;
      }
      forall j | 0 <= j < |rest| && forall i :: 0 <= i < j ==> rest[i].protocol != rest[j].protocol
        ensures Accepted(next, rest[j])
      {
        assert forall m :: 0 < m < j + 1 ==> list[m] == rest[m - 1];
        if list[0].protocol == rest[j].protocol {
          assert list[0].newI == list[j + 1].oldI;
        } else {
          assert Accepted(ps, list[j + 1]);
        }
      }
      ChainedApplies(next, rest);
    }
  }

  /** A list whose last change is its only real one for `p`. */
  lemma {:induction false} LastCell(v: Interface, p: Guid, list: seq<Change>, u: Interface)
    requires list != [] && CellApplies(v, p, list)
    requires list[|list| - 1].protocol == p && Quiet(list[..|list| - 1], p)
    ensures var last := list[|list| - 1];
            && last.oldI == v && CellApplied(v, p, list) == last.newI
            && CellUndone(u, p, list) == if u == last.newI then last.oldI else u
    decreases |list|
  {
    if |list| > 1 {
      assert list[..|list| - 1][0] == list[0];
      assert list[1..][..|list| - 2] == list[..|list| - 1][1..];
      LastCell(v, p, list[1..], u);
    } else {
      assert list[1..] == [];
    }
  }

  /** Two real changes of one protocol: the undo stops at the value between them. */
  lemma {:induction false} TwiceCell(v: Interface, p: Guid, list: seq<Change>, i: nat)
    requires i < |list| - 1 && CellApplies(v, p, list)
    requires list[i].protocol == p && Effective(list[i])
    requires list[|list| - 1].protocol == p && Effective(list[|list| - 1])
    requires forall k :: 0 <= k < |list| - 1 && k != i && list[k].protocol == p ==> !Effective(list[k])
    ensures CellUndone(CellApplied(v, p, list), p, list) != v
    decreases |list|
  {
    var rest := list[1..];
    assert forall k :: 0 <= k < |rest| ==> rest[k] == list[k + 1];
    if i == 0 {
      LastCell(list[0].newI, p, rest, CellApplied(v, p, list));
    } else {
      TwiceCell(v, p, rest, i - 1);
    }
  }

  lemma {:induction false} FirstRepeat(list: seq<Change>, n: nat) returns (j: nat)
    requires exists k :: 0 <= k < n && k < |list| && Repeats(list, k)
    ensures j < n && j < |list| && Repeats(list, j) && forall k :: 0 <= k < j ==> !Repeats(list, k)
    decreases n
  {
    if k :| 0 <= k < n - 1 && k < |list| && Repeats(list, k) {
      j := FirstRepeat(list, n - 1);
    } else {
      j := n - 1;
    }
  }

  lemma OnlyTwo(list: seq<Change>, i: nat, j: nat)
    requires i < j < |list| && list[i].protocol == list[j].protocol && Effective(list[i]) && Effective(list[j])
    requires forall k :: 0 <= k < j ==> !Repeats(list, k)
    ensures forall k :: 0 <= k < j && k != i && list[k].protocol == list[j].protocol ==> !Effective(list[k])
  {
    forall k | 0 <= k < j && k != i && list[k].protocol == list[j].protocol
      ensures !Effective(list[k])
    {
      assert !Repeats(list, if k < i then i else k);
    }
  }

  ghost predicate RealTwice(list: seq<Change>, i: nat) {
    && i < |list| - 1 && list[i].protocol == list[|list| - 1].protocol
    && Effective(list[i]) && Effective(list[|list| - 1])
    && forall k :: 0 <= k < |list| - 1 && k != i && list[k].protocol == list[i].protocol ==> !Effective(list[k])
  }

  lemma TwiceBreaksUndo(list: seq<Change>, i: nat) returns (ps: Protocols)
    requires Chained(list) && RealTwice(list, i)
    ensures Applies(ps, list) && Undone(Applied(ps, list), list) != ps
  {
    hide Applies, Applied, Undone, Chained, FirstsFit;
    ps := Start(list);
    ChainedApplies(ps, list);
    var p := list[i].protocol;
    FirstKey(ps, list, i);
    AppliedCell(ps, list, p);
    UndoneCell(Applied(ps, list), list, p);
    TwiceCell(ps[p], p, list, i);
  }

  lemma RepeatIsRealTwice(list: seq<Change>, j: nat) returns (i: nat)
    requires j < |list| && Repeats(list, j) && forall k :: 0 <= k < j ==> !Repeats(list, k)
    ensures RealTwice(list[..j + 1], i)
  {
    i :| 0 <= i < j && list[i].protocol == list[j].protocol && Effective(list[i]);
    OnlyTwo(list, i, j);
    assert forall k :: 0 <= k < j + 1 ==> list[..j + 1][k] == list[k];
  }

  lemma {:induction false} FirstKey(ps: Protocols, list: seq<Change>, i: nat)
    requires Applies(ps, list) && i < |list|
    ensures list[i].protocol in ps
    decreases i
  {
    if k :| 0 <= k < i && list[k].protocol == list[i].protocol {
      FirstKey(ps, list, k);
    } else {
      FirstFits(ps, list, i);
    }
  }

  /** A list can be applied exactly when the first change of each protocol finds its interface on the handle and
      every later one finds what the change before it left. */
  lemma AppliesIff(ps: Protocols, list: seq<Change>)
    ensures Applies(ps, list) <==> FirstsFit(ps, list) && Chained(list)
  {
    hide Applies, Chained;
    if Applies(ps, list) {
      AppliesIsChained(ps, list);
      forall j | 0 <= j < |list| && forall i :: 0 <= i < j ==> list[i].protocol != list[j].protocol
        ensures Accepted(ps, list[j])
      {
        FirstFits(ps, list, j);
      }
    } else if FirstsFit(ps, list) && Chained(list) {
      ChainedApplies(ps, list);
    }
  }

  /** For distinct protocols: every change finds the interface it expects. */
  lemma DistinctAppliesIff(ps: Protocols, list: seq<Change>)
    requires forall i, j :: 0 <= i < j < |list| ==> list[i].protocol != list[j].protocol
    ensures Applies(ps, list) <==>
            forall k :: 0 <= k < |list| ==> list[k].protocol in ps && ps[list[k].protocol] == list[k].oldI
  {
    hide Applies;
    AppliesIff(ps, list);
  }

  /** A protocol that is not listed stays as it is. */
  lemma {:induction false} AppliedElsewhere(ps: Protocols, list: seq<Change>, p: Guid)
    requires forall k :: 0 <= k < |list| ==> list[k].protocol != p
    ensures (p in Applied(ps, list) <==> p in ps) && (p in ps ==> Applied(ps, list)[p] == ps[p])
    decreases |list|
  {
    if list != [] {
      AppliedElsewhere(ps[list[0].protocol := list[0].newI], list[1..], p);
    }
  }

  /** The last change of a protocol is what it ends as. */
  lemma {:induction false} AppliedLast(ps: Protocols, list: seq<Change>, k: nat)
    requires k < |list| && forall j :: k < j < |list| ==> list[j].protocol != list[k].protocol
    ensures list[k].protocol in Applied(ps, list) && Applied(ps, list)[list[k].protocol] == list[k].newI
    decreases |list|
  {
    var next := ps[list[0].protocol := list[0].newI];
    if k == 0 {
      AppliedElsewhere(next, list[1..], list[0].protocol);
    } else {
      AppliedLast(next, list[1..], k - 1);
    }
  }

  /** The forward-order undo restores the database wherever the list fails, exactly when no protocol is
      really changed twice before the last entry by changes that fit together. */
  lemma UndoRestoresIff(list: seq<Change>)
    ensures UndoAlwaysRestores(list) <==> Undoable(list)
  {
    if Undoable(list) {
      forall ps: Protocols, k | 0 <= k < |list| && Applies(ps, list[..k])
        ensures Undone(Applied(ps, list[..k]), list[..k]) == ps
      {
        UndoRestores(ps, list, k);
      }
    } else {
      var m :| 0 <= m < |list| - 1 && Chained(list[..m + 1]) && Repeats(list, m);
      var j := FirstRepeat(list, m + 1);
      ChainedPrefix(list[..m + 1], j + 1);
      assert list[..m + 1][..j + 1] == list[..j + 1];
      var i := RepeatIsRealTwice(list, j);
      var ps := TwiceBreaksUndo(list[..j + 1], i);
    }
  }

  /** One protocol changed from 1 to 2 and from 2 to 3 before a change that fails: it comes back as 2. */
  lemma ChangedTwice(last: Change) returns (list: seq<Change>, ps: Protocols)
    ensures list == [Change(1, 1, 2), Change(1, 2, 3), last] && ps == map[1 := 1]
    ensures Applies(ps, list[..2]) && (last.protocol != 1 ==> !Applies(ps, list))
    ensures Undone(Applied(ps, list[..2]), list[..2]) == map[1 := 2] && !Undoable(list)
  {
    var c0, c1 := Change(1, 1, 2), Change(1, 2, 3);
    list, ps := [c0, c1, last], map[1 := 1];
    var once, twice: Protocols := map[1 := 2], map[1 := 3];
    assert ps[1 := 2] == once && once[1 := 3] == twice && twice[1 := 2] == once;
    var made, second, none: seq<Change> := [c0, c1], [c1], [];
    assert list[..2] == made && made[1..] == second && second[1..] == none;
    assert Applied(once, second) == Applied(twice, none) == twice;
    assert Applied(ps, made) == twice && Applies(once, second) && Applies(ps, made);
    assert Undone(twice, second) == Undone(once, none) == once;
    assert Undone(twice, made) == once;
    assert list[1..] == [c1, last] && [c1, last][1..] == [last];
    assert last.protocol != 1 ==> !Applies(twice, [last]) && !Applies(once, [c1, last]);
    AppliesIsChained(ps, made);
    assert Repeats(list, 1);
  }

  /** Pairwise distinct protocols are enough. */
  lemma DistinctIsUndoable(list: seq<Change>)
    requires forall i, j :: 0 <= i < j < |list| ==> list[i].protocol != list[j].protocol
    ensures Undoable(list)
  {
  }
}
