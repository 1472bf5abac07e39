/** The device registry: a kernel list of device objects, the walks over it, and the calls
    that initialise, open and close devices. Driver handlers do not touch the registry or
    the flags. */
module RtDevice {
  import opened Common
  import opened RtList

  const RT_NAME_MAX: nat := 8
  const RT_EOK: int := 0
  const RT_EBUSY: int := 7
  const RT_ENOSYS: int := 6
  const ACTIVATED: bv16 := 0x010
  const STANDALONE: bv16 := 0x008
  const OPEN: bv16 := 0x008
  const CLOSE: bv16 := 0

  predicate Activated(flag: bv16) { flag & ACTIVATED != 0 }

  function Activate(flag: bv16): (r: bv16)
    ensures Activated(r)
  {
    flag | ACTIVATED
  }

  predicate Standalone(flag: bv16) { flag & STANDALONE != 0 }

  predicate Opened(openFlag: bv16) { openFlag & OPEN != 0 }

  function OpenedWith(oflag: bv16): (r: bv16)
    ensures Opened(r)
  {
    oflag | OPEN
  }

  /** Activation sets bit 4 and no other, opening bit 3. */
  lemma ActivationIsBitFour(flag: bv16)
    ensures Activate(flag) == flag | 0x10
    ensures Activated(flag) <==> flag & 0x10 != 0
  {
  }

  lemma OpenIsBitThree(flag: bv16)
    ensures OpenedWith(flag) == flag | 8
    ensures Opened(flag) <==> flag & 8 != 0
  {
  }

  /** So a device that was registered stand-alone, which is bit 3 of the flags, remains so. */
  lemma StandaloneStays(flag: bv16)
    ensures Standalone(flag) <==> flag & 8 != 0
    ensures Standalone(Activate(flag)) <==> Standalone(flag)
  {
    hide Activated;
    BitsApart(flag);
  }

  lemma BitsApart(x: bv16)
    ensures (x | 0x10) & 8 == x & 8
  {
  }

  // ----- names

  /** The C string in the first n bytes: everything before the first zero. */
  function CStr(a: seq<byte>, n: nat): seq<byte>
  {
    if n == 0 || a == [] || a[0] == 0 then [] else [a[0]] + CStr(a[1..], n - 1)
  }

  lemma {:induction false} CStrEndsAtZero(a: seq<byte>, n: nat)
    ensures var r := CStr(a, n);
            r <= a && |r| <= n && 0 !in r && (|r| < n && |r| < |a| ==> a[|r|] == 0)
  {
    if n != 0 && a != [] && a[0] != 0 {
      CStrEndsAtZero(a[1..], n - 1);
    }
  }

  predicate Readable(a: seq<byte>, n: nat) { |a| >= n || exists i :: 0 <= i < |a| && a[i] == 0 }

  /** A value stored into a signed char. */
  function SignedChar(x: int): (r: int)
    ensures -128 <= r < 128
    ensures -256 < x < 256 ==> (r == 0 <==> x == 0)
  {
    (x + 128) % 256 - 128
  }

  /** rt_strncmp: zero exactly for the same C string. */
  method Strncmp(cs: seq<byte>, ct: seq<byte>, count: nat) returns (res: int)
    requires Readable(cs, count) && Readable(ct, count)
    ensures res == 0 <==> CStr(cs, count) == CStr(ct, count)
  {
    res := 0;
    var i: nat, left: nat := 0, count;
    while left > 0
      invariant i + left == count && i <= |cs| && i <= |ct| && res == 0
      invariant Readable(cs[i..], left) && Readable(ct[i..], left)
      invariant CStr(cs, count) == CStr(ct, count) <==> CStr(cs[i..], left) == CStr(ct[i..], left)
    {
      CStrStep(cs[i..], ct[i..], left);
      var x: int, y: int := cs[i], ct[i];
      res := SignedChar(x - y);
      if res != 0 || x == 0 {
        return;
      }
      assert cs[i..][1..] == cs[i + 1..] && ct[i..][1..] == ct[i + 1..];
      ReadableRest(cs[i..], left);
      ReadableRest(ct[i..], left);
      left, i := left - 1, i + 1;
    }
  }

  lemma CStrStep(a: seq<byte>, b: seq<byte>, n: nat)
    requires a != [] && b != [] && n > 0
    ensures CStr(a, n) == CStr(b, n) <==> a[0] == b[0] && (a[0] == 0 || CStr(a[1..], n - 1) == CStr(b[1..], n - 1))
  {
    var x, y := CStr(a, n), CStr(b, n);
    if a[0] != 0 && b[0] != 0 {
      assert x[0] == a[0] && y[0] == b[0];
      assert x[1..] == CStr(a[1..], n - 1) && y[1..] == CStr(b[1..], n - 1);
    }
  }

  lemma ReadableRest(a: seq<byte>, n: nat)
    requires Readable(a, n) && n > 0 && a != [] && a[0] != 0
    ensures Readable(a[1..], n - 1)
  {
    if |a| < n {
      var i :| 0 <= i < |a| && a[i] == 0;
      assert a[1..][i - 1] == 0;
    }
  }

  // ----- devices

  class Device {
    const name: seq<byte>
    const hasInit: bool
    const hasOpen: bool
    const hasClose: bool
    var list: Node<Option<Device>>    // parent.list, through which it is registered
    var flag: bv16
    var openFlag: bv16

    constructor (name: seq<byte>, hasInit: bool, hasOpen: bool, hasClose: bool)
      requires |name| == RT_NAME_MAX
      ensures this.name == name && list.entry == Some(this) && IsRing([list]) && fresh(list)
      ensures this.hasInit == hasInit && this.hasOpen == hasOpen && this.hasClose == hasClose
    {
      this.name, this.hasInit, this.hasOpen, this.hasClose := name, hasInit, hasOpen, hasClose;
      flag, openFlag := 0, CLOSE;
      list := new Node<Option<Device>>(None);
      new;
      list := new Node<Option<Device>>(Some(this));
    }
  }

  // ----- what happened to devices

  /** Registered, activated or not; a call of the init handler, active saying whether the
      device was activated before; the open flag set, on a stand-alone device or not; the
      open flag cleared. */
  datatype Entry =
    | Registered(dev: Device, activated: bool)
    | Called(dev: Device, ok: bool, active: bool)
    | InUse(dev: Device, alone: bool)
    | Released(dev: Device)

  /** The device has been activated since it was registered. */
  function On(log: seq<Entry>, d: Device): bool
  {
    if log == [] then false
    else match log[|log| - 1] {
      case Registered(x, activated) => if x == d then activated else On(log[..|log| - 1], d)
      case Called(x, ok, _) => (x == d && ok) || On(log[..|log| - 1], d)
      case _ => On(log[..|log| - 1], d)
    }
  }

  /** The device was opened and not closed since. */
  function Used(log: seq<Entry>, d: Device): bool
  {
    if log == [] then false
    else match log[|log| - 1] {
      case InUse(x, _) => x == d || Used(log[..|log| - 1], d)
      case Released(x) => x != d && Used(log[..|log| - 1], d)
      case _ => Used(log[..|log| - 1], d)
    }
  }

  /** What may come next. */
  predicate MayAppend(log: seq<Entry>, e: Entry)
  {
    match e
    case Called(d, _, active) => !active && !On(log, d)
    case InUse(d, alone) => alone ==> !Used(log, d)
    case _ => true
  }

  predicate Lawful(log: seq<Entry>)
  {
    log == [] || (Lawful(log[..|log| - 1]) && MayAppend(log[..|log| - 1], log[|log| - 1]))
  }

  lemma {:induction false} LawfulAt(log: seq<Entry>, j: nat)
    requires Lawful(log) && j < |log|
    ensures MayAppend(log[..j], log[j])
  {
    var init := log[..|log| - 1];
    if j < |log| - 1 {
      LawfulAt(init, j);
      assert init[..j] == log[..j];
    }
  }

  lemma {:induction false} StaysOn(log: seq<Entry>, d: Device, i: nat, n: nat)
    requires i < n <= |log| && log[i].Called? && log[i].dev == d && log[i].ok
    requires forall k :: i < k < n ==> !(log[k].Registered? && log[k].dev == d)
    ensures On(log[..n], d)
  {
    assert log[..n][..n - 1] == log[..n - 1];
    if i < n - 1 {
      StaysOn(log, d, i, n - 1);
    }
  }

  lemma {:induction false} StaysUsed(log: seq<Entry>, d: Device, i: nat, n: nat)
    requires i < n <= |log| && log[i].InUse? && log[i].dev == d
    requires forall k :: i < k < n ==> log[k] != Released(d)
    ensures Used(log[..n], d)
  {
    assert log[..n][..n - 1] == log[..n - 1];
    if i < n - 1 {
      StaysUsed(log, d, i, n - 1);
    }
  }

  /** No init handler is called on an activated device, and none again after a success,
      unless the device was registered anew in between. */
  lemma NoCallAfterSuccess(log: seq<Entry>, i: nat, j: nat)
    requires Lawful(log) && i < j < |log| && log[i].Called? && log[j].Called? && log[i].dev == log[j].dev
    ensures !log[j].active
    ensures log[i].ok ==> exists k :: i < k < j && log[k].Registered? && log[k].dev == log[j].dev
  {
    LawfulAt(log, j);
    if log[i].ok && forall k :: i < k < j ==> !(log[k].Registered? && log[k].dev == log[j].dev) {
      StaysOn(log, log[j].dev, i, j);
    }
  }

  /** A stand-alone device has one user at a time: between two opens it is closed. */
  lemma ClosedBetweenOpens(log: seq<Entry>, i: nat, j: nat)
    requires Lawful(log) && i < j < |log| && log[i].InUse? && log[j].InUse? && log[i].dev == log[j].dev
    requires log[j].alone
    ensures exists k :: i < k < j && log[k] == Released(log[j].dev)
  {
    LawfulAt(log, j);
    if forall k :: i < k < j ==> log[k] != Released(log[j].dev) {
      StaysUsed(log, log[j].dev, i, j);
    }
  }

  lemma {:induction false} Untouched(log: seq<Entry>, d: Device)
    requires On(log, d) || Used(log, d)
    ensures exists i :: 0 <= i < |log| && log[i].dev == d
  {
    var init, e := log[..|log| - 1], log[|log| - 1];
    if e.dev != d {
      Untouched(init, d);
      var i :| 0 <= i < |init| && init[i].dev == d;
      assert log[i].dev == d;
    }
  }

  /** What a further entry changes. */
  lemma Appended(log: seq<Entry>, e: Entry, d: Device)
    ensures Lawful(log) && MayAppend(log, e) ==> Lawful(log + [e])
    ensures e.dev != d ==> On(log + [e], d) == On(log, d) && Used(log + [e], d) == Used(log, d)
    ensures e.dev == d ==>
              On(log + [e], d) == (match e
                                   case Registered(_, a) => a
                                   case Called(_, ok, _) => ok || On(log, d)
                                   case _ => On(log, d)) &&
              Used(log + [e], d) == (match e
                                     case InUse(_, _) => true
                                     case Released(_) => false
                                     case _ => Used(log, d))
  {
    assert (log + [e])[..|log|] == log;
  }

  /** A device that has a handler and is not activated. */
  predicate Due(d: Device, flag: bv16) { d.hasInit && !Activated(flag) }

  /** The call that a device with this flag needs. */
  ghost function InitCall(d: Device, flag: bv16, code: int): seq<Entry>
  {
    if Due(d, flag) then [Called(d, code == RT_EOK, false)] else []
  }

  ghost function Flags(ds: seq<Device>): (r: seq<bv16>)
    reads ds
    ensures |r| == |ds| && forall i :: 0 <= i < |ds| ==> r[i] == ds[i].flag
  {
    if ds == [] then [] else [ds[0].flag] + Flags(ds[1..])
  }

  /** The calls that devices with these flags need, in order; codes are the results. */
  ghost function InitCalls(ds: seq<Device>, flags: seq<bv16>, codes: Device -> int, n: nat): seq<Entry>
    requires n <= |ds| == |flags|
  {
    if n == 0 then []
    else
      var d := ds[n - 1];
      InitCalls(ds, flags, codes, n - 1) + InitCall(d, flags[n - 1], codes(d))
  }

  function Entries(r: seq<Node<Option<Device>>>): (ds: seq<Device>)
    requires forall i :: 0 <= i < |r| ==> r[i].entry.Some?
    ensures |ds| == |r| && forall i :: 0 <= i < |r| ==> r[i].entry == Some(ds[i])
  {
    if r == [] then [] else [r[0].entry.value] + Entries(r[1..])
  }

  lemma EntriesSplit(a: seq<Node<Option<Device>>>, b: seq<Node<Option<Device>>>)
    requires (forall i :: 0 <= i < |a| ==> a[i].entry.Some?) && forall i :: 0 <= i < |b| ==> b[i].entry.Some?
    ensures Entries(a + b) == Entries(a) + Entries(b)
  {
    hide Entries;
    var x, y := Entries(a + b), Entries(a) + Entries(b);
    forall i | 0 <= i < |x|
      ensures x[i] == y[i]
    {
      assert (a + b)[i].entry == Some(x[i]);
      assert (a + b)[i] == if i < |a| then a[i] else b[i - |a|];
    }
  }

  lemma EntriesRemoved(r: seq<Node<Option<Device>>>, k: nat)
    requires k + 1 < |r| && forall i :: 0 < i < |r| ==> r[i].entry.Some?
    ensures var ds := Entries(r[1..]);
            Entries(Removed(r, k + 1)[1..]) == ds[..k] + ds[k + 1..]
  {
    hide Entries;
    var a, x, b := r[1..k + 1], r[k + 1], r[k + 2..];
    assert r[1..] == a + ([x] + b) && Removed(r, k + 1)[1..] == a + b;
    EntriesSplit(a, [x] + b);
    EntriesSplit([x], b);
    EntriesSplit(a, b);
  }

  lemma InitCallsNext(ds: seq<Device>, flags: seq<bv16>, codes: Device -> int, n: nat)
    requires n <= |ds| == |flags|
    ensures InitCalls(ds, flags, codes, 0) == []
    ensures n < |ds| ==>
              InitCalls(ds, flags, codes, n + 1)
              == InitCalls(ds, flags, codes, n) + InitCall(ds[n], flags[n], codes(ds[n]))
  {
  }

  /** The flags of a device after its turn. */
  function NewFlag(d: Device, flag: bv16, code: int): bv16
  {
    if Due(d, flag) && code == RT_EOK then Activate(flag) else flag
  }

  /** A device ends up activated if it was, or if its handler succeeds; nothing else about it
      changes, so it is stand-alone if it was. */
  lemma ActivatedAfterSuccess(d: Device, flag: bv16, code: int)
    ensures Activated(NewFlag(d, flag, code)) <==> Activated(flag) || (d.hasInit && code == 0)
    ensures Standalone(NewFlag(d, flag, code)) <==> Standalone(flag)
  {
    hide Activated, Standalone, Activate;
    StandaloneStays(flag);
  }

  /** Of different devices exactly those are called that have a handler and are not activated. */
  lemma {:induction false} ExactlyDueAreCalled(ds: seq<Device>, flags: seq<bv16>, codes: Device -> int, n: nat, i: nat)
    requires n <= |ds| == |flags| && i < |ds| && forall j, k :: 0 <= j < k < |ds| ==> ds[j] != ds[k]
    ensures (exists e :: e in InitCalls(ds, flags, codes, n) && e.dev == ds[i])
            <==> i < n && ds[i].hasInit && !Activated(flags[i])
    ensures i < n && ds[i].hasInit && !Activated(flags[i]) ==>
              Called(ds[i], codes(ds[i]) == 0, false) in InitCalls(ds, flags, codes, n)
  {
    hide Activated;
    if n > 0 {
      ExactlyDueAreCalled(ds, flags, codes, n - 1, i);
      var init, last := InitCalls(ds, flags, codes, n - 1), InitCall(ds[n - 1], flags[n - 1], codes(ds[n - 1]));
      assert InitCalls(ds, flags, codes, n) == init + last;
      assert forall e :: e in init + last <==> e in init || e in last;
    }
  }

  class Registry {
    const objectList: Node<Option<Device>>
    ghost var ring: seq<Node<Option<Device>>>
    ghost var log: seq<Entry>

    ghost predicate Linked()
      reads `ring, ring, (set i | 0 < i < |ring| && ring[i].entry.Some? :: ring[i].entry.value)`list
    {
      IsRing(ring) && ring[0] == objectList &&
      forall i {:trigger ring[i]} :: 0 < i < |ring| ==>
        ring[i].entry.Some? && ring[i].entry.value.list == ring[i] && |ring[i].entry.value.name| == RT_NAME_MAX
    }

    ghost function Devices(): (ds: seq<Device>)
      requires Linked()
      reads `ring, ring, (set i | 0 < i < |ring| && ring[i].entry.Some? :: ring[i].entry.value)`list
      ensures |ds| == |ring| - 1 && forall i :: 0 <= i < |ds| ==> ring[i + 1].entry == Some(ds[i])
    {
      Entries(ring[1..])
    }

    /** The flags of a device agree with what happened to it. */
    ghost predicate Tracked(d: Device)
      reads `log, d`flag, d`openFlag
    {
      (On(log, d) ==> Activated(d.flag)) && (Used(log, d) ==> Opened(d.openFlag))
    }

    ghost predicate Sound()
      reads `log, (set i | 0 <= i < |log| :: log[i].dev)`flag, (set i | 0 <= i < |log| :: log[i].dev)`openFlag
    {
      Lawful(log) && forall i {:trigger log[i]} :: 0 <= i < |log| ==> Tracked(log[i].dev)
    }

    /** Tracked is trivial for a device to which nothing happened yet. */
    lemma AllTracked(d: Device)
      requires Sound()
      ensures Tracked(d)
    {
      if On(log, d) || Used(log, d) {
        Untouched(log, d);
      }
    }

    /** An entry whose device agrees with it afterwards; the others are as before. */
    ghost method Append(e: Entry)
      requires Lawful(log) && MayAppend(log, e)
      requires forall i {:trigger log[i]} :: 0 <= i < |log| && log[i].dev != e.dev ==> Tracked(log[i].dev)
      requires match e
               case Registered(d, a) => (a ==> Activated(d.flag)) && (Used(log, d) ==> Opened(d.openFlag))
               case Called(d, ok, _) =>
                 (ok || On(log, d) ==> Activated(d.flag)) && (Used(log, d) ==> Opened(d.openFlag))
               case InUse(d, _) => (On(log, d) ==> Activated(d.flag)) && Opened(d.openFlag)
               case Released(d) => On(log, d) ==> Activated(d.flag)
      modifies `log
      ensures Sound() && log == old(log) + [e]
    {
      hide On, Used, Lawful, Activated, Opened;
      Appended(log, e, e.dev);
      forall i | 0 <= i < |log|
        ensures log[i].dev != e.dev ==> On(log + [e], log[i].dev) == On(log, log[i].dev) &&
                                        Used(log + [e], log[i].dev) == Used(log, log[i].dev)
      {
        Appended(log, e, log[i].dev);
      }
      log := log + [e];
    }

    constructor ()
      ensures Linked() && Sound() && Devices() == [] && log == [] && fresh(ring)
    {
      objectList := new Node<Option<Device>>(None);
      log := [];
      new;
      ring := [objectList];
    }

    /** rt_device_register of a device that is in no list: it becomes the first one. */
    method Register(dev: Device, flags: bv16)
      requires Linked() && Sound() && dev.list.entry == Some(dev) && |dev.name| == RT_NAME_MAX
      requires dev.list !in ring
      modifies `ring, `log, ring, dev`flag, dev.list
      ensures Linked() && Sound() && Devices() == [dev] + old(Devices()) && dev.flag == flags
      ensures log == old(log) + [Registered(dev, Activated(flags))]
    {
      hide On, Used, Lawful, Activated, Opened;
      AllTracked(dev);
      InsertAfter(objectList, dev.list, ring, 0);
      ring := Inserted(ring, 0, dev.list);
      dev.flag := flags;
      Append(Registered(dev, Activated(flags)));
    }

    /** rt_device_unregister of the k-th device: it is in no list any more. */
    method Unregister(dev: Device, ghost k: nat)
      requires Linked() && Sound() && k < |Devices()| && Devices()[k] == dev
      modifies `ring, ring
      ensures Linked() && Sound() && Devices() == old(Devices()[..k] + Devices()[k + 1..])
      ensures IsRing([dev.list]) && dev.list !in ring && log == old(log)
    {
      hide Lawful, On, Used, Entries, IsRing;
      ghost var r := ring;
      InRing(k + 1);
      Remove(dev.list, ring, k + 1);
      ring := Removed(ring, k + 1);
      EntriesRemoved(r, k);
    }

    lemma InRing(k: nat)
      requires Linked() && 0 < k < |ring|
      ensures IsRing(ring) && |ring| > 1 && Removed(ring, k)[0] == objectList && ring[k] !in Removed(ring, k)
      ensures Devices()[k - 1].list == ring[k] && ring[k].next in ring && ring[k].prev in ring
      ensures forall i {:trigger Removed(ring, k)[i]} :: 0 < i < |ring| - 1 ==>
                var n := Removed(ring, k)[i];
                n.entry.Some? && n.entry.value.list == n && |n.entry.value.name| == RT_NAME_MAX
    {
      hide Entries;
      assert ring[k].entry == Some(Devices()[k - 1]);
      assert forall i :: 0 <= i < |ring| - 1 ==> Removed(ring, k)[i] == ring[if i < k then i else i + 1];
    }

    /** rt_device_find: the first device with that name, or null if there is none. */
    method Find(name: seq<byte>) returns (d: Device?, ghost k: nat)
      requires Linked() && Readable(name, RT_NAME_MAX)
      ensures d == null ==> forall x :: x in Devices() ==> CStr(x.name, 8) != CStr(name, 8)
      ensures d != null ==> k < |Devices()| && Devices()[k] == d && CStr(d.name, 8) == CStr(name, 8)
      ensures d != null ==>
                forall i :: 0 <= i < k ==> CStr(Devices()[i].name, 8) != CStr(name, 8)
    {
      hide CStr, Readable;
      var node := objectList.next;
      ghost var i := 0;
      ghost var ds := Devices();
      while node != objectList
        invariant 0 <= i <= |ds| && node == ring[After(i, |ring|)]
        invariant forall j :: 0 <= j < i ==> CStr(ds[j].name, RT_NAME_MAX) != CStr(name, RT_NAME_MAX)
        decreases |ds| - i
      {
        assert node == ring[i + 1];
        var found := node.entry.value;
        assert found == ds[i];
        NameReadable(found.name);
        var res := Strncmp(found.name, name, RT_NAME_MAX);
        if res == 0 {
          return found, i;
        }
        node, i := node.next, i + 1;
      }
      WalkFrom(i);
      d, k := null, 0;
    }

    /** Where the walk goes from the i-th node. */
    lemma WalkFrom(i: nat)
      requires Linked() && i < |ring|
      ensures ring[0] == objectList && ring[i].next == ring[After(i, |ring|)]
      ensures if i + 1 < |ring| then After(i, |ring|) == i + 1 && ring[i + 1] != objectList
              else ring[After(i, |ring|)] == objectList
    {
    }

    lemma DevicesDiffer(ds: seq<Device>)
      requires Linked() && ds == Devices()
      ensures forall i, j :: 0 <= i < j < |ds| ==> ds[i] != ds[j]
    {
      hide Entries;
      forall i, j | 0 <= i < j < |ds|
        ensures ds[i] != ds[j]
      {
        assert ring[i + 1] != ring[j + 1];
        assert ring[i + 1].entry == Some(ds[i]) && ring[j + 1].entry == Some(ds[j]);
      }
    }

    lemma NotOn(d: Device)
      requires Tracked(d) && Sound()
      ensures !Activated(d.flag) ==> !On(log, d)
      ensures Used(log, d) ==> Opened(d.openFlag)
      ensures Lawful(log) && forall i {:trigger log[i]} :: 0 <= i < |log| ==> Tracked(log[i].dev)
    {
    }

    /** Calling a driver's init handler, which returns code. */
    method CallInit(d: Device, code: int)
      requires Linked() && Sound() && d.hasInit && !Activated(d.flag)
      modifies `log, d`flag
      ensures Linked() && Sound() && Devices() == old(Devices())
      ensures log == old(log) + [Called(d, code == RT_EOK, false)]
      ensures d.flag == if code == RT_EOK then Activate(old(d.flag)) else old(d.flag)
    {
      hide On, Used, Lawful, Activated, Activate, Opened, Linked, Entries, Tracked, Sound;
      AllTracked(d);
      NotOn(d);
      ghost var active := Activated(d.flag);
      if code == RT_EOK {
        d.flag := Activate(d.flag);
      }
      Append(Called(d, code == RT_EOK, active));
    }

    /** rt_device_init_all; codes says what each driver's handler returns. Every device that
        has a handler and is not activated is called once, in list order. */
    method InitAll(codes: Device -> int)
      requires Linked() && Sound()
      modifies `log, (set d | d in Devices())`flag
      ensures Linked() && Sound() && Devices() == old(Devices())
      ensures var ds, flags := old(Devices()), old(Flags(Devices()));
              log == old(log) + InitCalls(ds, flags, codes, |ds|) &&
              forall i :: 0 <= i < |ds| ==> ds[i].flag == NewFlag(ds[i], flags[i], codes(ds[i]))
      ensures var ds, flags := old(Devices()), old(Flags(Devices()));
              forall i :: 0 <= i < |ds| ==>
                (Activated(ds[i].flag) <==> Activated(flags[i]) || (ds[i].hasInit && codes(ds[i]) == 0)) &&
                (Standalone(ds[i].flag) <==> Standalone(flags[i]))
    {
      hide *;
      ghost var ds := Devices();
      ghost var flags := Flags(ds);
      DevicesDiffer(ds);
      WalkFrom(0);
      InitCallsNext(ds, flags, codes, 0);
      var node := objectList.next;
      ghost var i := 0;
      while node != objectList
        invariant Linked() && Sound() && Devices() == ds
        invariant 0 <= i <= |ds| && node == ring[After(i, |ring|)]
        invariant log == old(log) + InitCalls(ds, flags, codes, i)
        invariant forall j :: i <= j < |ds| ==> ds[j].flag == flags[j]
        invariant forall j :: 0 <= j < i ==> ds[j].flag == NewFlag(ds[j], flags[j], codes(ds[j]))
        decreases |ds| - i
      {
        WalkFrom(i);
        WalkFrom(i + 1);
        assert node == ring[i + 1] && node.entry == Some(ds[i]);
        var device := node.entry.value;
        InitCallsNext(ds, flags, codes, i);
        Visit(device, codes(device));
        node, i := node.next, i + 1;
      }
      WalkFrom(i);
      forall j | 0 <= j < |ds|
        ensures Activated(ds[j].flag) <==> Activated(flags[j]) || (ds[j].hasInit && codes(ds[j]) == 0)
        ensures Standalone(ds[j].flag) <==> Standalone(flags[j])
      {
        ActivatedAfterSuccess(ds[j], flags[j], codes(ds[j]));
      }
    }

    /** The body of the walk. */
    method Visit(device: Device, code: int)
      requires Linked() && Sound()
      modifies `log, device`flag
      ensures Linked() && Sound() && Devices() == old(Devices())
      ensures log == old(log) + InitCall(device, old(device.flag), code)
      ensures device.flag == NewFlag(device, old(device.flag), code)
    {
      hide Activated, Activate;
      if device.hasInit && !Activated(device.flag) {
        CallInit(device, code);
      }
    }

    /** rt_device_init; code is what the handler returns if it is called. */
    method Init(d: Device, code: int) returns (result: int)
      requires Linked() && Sound()
      modifies `log, d`flag
      ensures Linked() && Sound() && Devices() == old(Devices())
      ensures log == old(log) + InitCall(d, old(d.flag), code) && d.flag == NewFlag(d, old(d.flag), code)
      ensures result == if !d.hasInit then -RT_ENOSYS else if Due(d, old(d.flag)) then code else RT_EOK
      ensures Activated(d.flag) <==> Activated(old(d.flag)) || (d.hasInit && code == 0)
      ensures Standalone(d.flag) <==> Standalone(old(d.flag))
    {
      hide Activated, Activate, Standalone;
      ActivatedAfterSuccess(d, d.flag, code);
      result := RT_EOK;
      if d.hasInit {
        if !Activated(d.flag) {
          CallInit(d, code);
          result := code;
        }
      } else {
        result := -RT_ENOSYS;
      }
    }

    /** rt_device_open; the handlers return initCode and openCode. A driver without an init
        handler has to be registered as activated. */
    method Open(d: Device, oflag: bv16, initCode: int, openCode: int) returns (result: int)
      requires Linked() && Sound() && (d.hasInit || Activated(d.flag))
      modifies `log, d`flag, d`openFlag
      ensures Linked() && Sound() && Devices() == old(Devices())
      ensures d.flag == NewFlag(d, old(d.flag), initCode)
      ensures var before := old(log) + InitCall(d, old(d.flag), initCode);
              if Due(d, old(d.flag)) && initCode != RT_EOK then
                result == initCode && d.openFlag == old(d.openFlag) && log == before
              else if Standalone(d.flag) && Opened(old(d.openFlag)) then
                result == -RT_EBUSY && d.openFlag == old(d.openFlag) && log == before
              else
                result == (if d.hasOpen then openCode else -RT_ENOSYS) &&
                if result == RT_EOK || result == -RT_ENOSYS
                then d.openFlag == OpenedWith(oflag) && log == before + [InUse(d, Standalone(d.flag))]
                else d.openFlag == old(d.openFlag) && log == before
      ensures result == RT_EOK ==> Activated(d.flag)
      ensures Standalone(d.flag) <==> Standalone(old(d.flag))
    {
      hide *;
      ActivatedAfterSuccess(d, d.flag, initCode);
      result := EnsureInit(d, initCode);
      if result == RT_EOK {
        result := Enter(d, oflag, openCode);
      }
    }

    /** Its first part: a device that is not activated is initialised. */
    method EnsureInit(d: Device, initCode: int) returns (result: int)
      requires Linked() && Sound() && (d.hasInit || Activated(d.flag))
      modifies `log, d`flag
      ensures Linked() && Sound() && Devices() == old(Devices())
      ensures log == old(log) + InitCall(d, old(d.flag), initCode) && d.flag == NewFlag(d, old(d.flag), initCode)
      ensures result == (if Due(d, old(d.flag)) then initCode else RT_EOK)
      ensures result == RT_EOK ==> Activated(d.flag)
    {
      hide Activated, Activate, Linked, Sound, Entries;
      result := RT_EOK;
      if !Activated(d.flag) {
        CallInit(d, initCode);
        result := initCode;
      }
    }

    /** Its second part, for an activated device. */
    method Enter(d: Device, oflag: bv16, openCode: int) returns (result: int)
      requires Linked() && Sound()
      modifies `log, d`openFlag
      ensures Linked() && Sound() && Devices() == old(Devices())
      ensures if Standalone(d.flag) && Opened(old(d.openFlag)) then
                result == -RT_EBUSY && d.openFlag == old(d.openFlag) && log == old(log)
              else
                result == (if d.hasOpen then openCode else -RT_ENOSYS) &&
                if result == RT_EOK || result == -RT_ENOSYS
                then d.openFlag == OpenedWith(oflag) && log == old(log) + [InUse(d, Standalone(d.flag))]
                else d.openFlag == old(d.openFlag) && log == old(log)
    {
      hide *;
      if Standalone(d.flag) && Opened(d.openFlag) {
        return -RT_EBUSY;
      }
      result := if d.hasOpen then openCode else -RT_ENOSYS;
      if result == RT_EOK || result == -RT_ENOSYS {
        SetOpen(d, oflag);
      }
    }

    /** dev->open_flag = oflag | RT_DEVICE_OFLAG_OPEN. */
    method SetOpen(d: Device, oflag: bv16)
      requires Linked() && Sound() && !(Standalone(d.flag) && Opened(d.openFlag))
      modifies `log, d`openFlag
      ensures Linked() && Sound() && Devices() == old(Devices())
      ensures d.openFlag == OpenedWith(oflag) && log == old(log) + [InUse(d, Standalone(d.flag))]
    {
      hide On, Used, Lawful, Activated, Opened, OpenedWith, Standalone, Linked, Entries;
      AllTracked(d);
      d.openFlag := OpenedWith(oflag);
      Append(InUse(d, Standalone(d.flag)));
    }

    /** rt_device_close. */
    method Close(d: Device, code: int) returns (result: int)
      requires Linked() && Sound()
      modifies `log, d`openFlag
      ensures Linked() && Sound() && Devices() == old(Devices())
      ensures result == if d.hasClose then code else -RT_ENOSYS
      ensures if result == RT_EOK || result == -RT_ENOSYS then d.openFlag == 0 && log == old(log) + [Released(d)]
              else d.openFlag == old(d.openFlag) && log == old(log)
    {
      hide On, Used, Lawful, Activated, Linked, Entries;
      result := if d.hasClose then code else -RT_ENOSYS;
      if result == RT_EOK || result == -RT_ENOSYS {
        AllTracked(d);
        d.openFlag := CLOSE;
        Append(Released(d));
      }
    }
  }

  lemma NameReadable(name: seq<byte>)
    requires |name| == RT_NAME_MAX
    ensures Readable(name, RT_NAME_MAX)
  {
  }
}
