/** The device table of kernel/dev/dev.c with the devices in it, each of which carries a reference count (kernel/kobject.c).
    Writers take turns under the table's lock; device_get goes through the table inside an RCU section with no lock; an entry
    for a major number is freed only after the sections that were open when it was retired are over. */
module DevTable {
  import K = Kobject

  const MAX_MAJOR := 256
  const MAX_MINOR := 256

  /** The reference taken at registration. */
  const REG := 0

  /** How far device_unregister has come: not begun, flag set, out of the table, reference given back. */
  datatype Leaving = Staying | Marked | Out | Left

  /** A device: the numbers in its fields (minor 0 asks for any free one), the slot it was put in, how often it has been
      registered before, its count, whether its first reference was given back by other means than device_unregister, and
      whether its release has been through the table. */
  datatype Device = Device(major: int, minor: int, at: int, life: nat, obj: K.Object, leaving: Leaving, dropped: bool, swept: bool)

  /** A pointer to a device, with a record of the registration it is from and of whether that asked for any free slot. */
  datatype Ref = Ref(dev: int, life: nat, auto: bool)

  /** What a major number leads to: the devices by minor number, and the count kept of them. */
  datatype Entry = Entry(major: int, minors: map<int, Ref>, num: int)

  /** How far a call of device_get or device_dup has come: it has the entry, the device, has found the flag clear, has read
      the count. */
  datatype Stage = Begun | AtEntry(e: int) | AtDevice(ref: Ref) | Passed(ref: Ref) | Trying(ref: Ref, seen: int) | Failed | Got(ref: Ref)

  /** A call of device_get, with the entries its section has seen, or of device_dup by the holder of reference `via`. */
  datatype Call = Get(major: int, minor: int, held: set<int>, stage: Stage) | Dup(via: int, stage: Stage)

  /** The table; all entries ever made; those taken out of the table whose free has not been asked for; those waiting for
      the sections listed; those freed; the devices; the number of live objects; and the calls under way. */
  datatype State = State(table: map<int, int>, entries: map<int, Entry>, unlinked: set<int>, waiting: map<int, set<int>>, freed: set<int>,
                         devs: map<int, Device>, live: int, calls: map<int, Call>, next: nat)

  datatype Move = Register(d: int, major: int, minor: int, at: int, e: int)
                | Mark(d: int) | TakeOut(d: int, e: int) | PutOwn(d: int)
                | Put(d: int, k: int) | KobjectGet(d: int, via: int, k: int) | Detach(d: int) | Sweep(d: int, e: int) | Release(d: int)
                | CallRcu(e: int) | Free(e: int)
                | BeginGet(major: int, minor: int) | BeginDup(d: int, via: int)
                | ReadMajor(r: int) | ReadSlot(r: int) | Test(r: int) | Load(r: int) | Swap(r: int, k: int) | Refuse(r: int) | End(r: int)

  /** The entry for a major number, made if there is none: __dev_slot_get for a writer */
  function Slot(s: State, major: int, e: int): State {
    if major in s.table then s else s.(table := s.table[major := e], entries := s.entries[e := Entry(major, map[], 0)])
  }

  /** The slot __dev_slot_get leads a registration to, found empty: for minor 0 the lowest free one. */
  ghost predicate SlotFor(minors: map<int, Ref>, minor: int, at: int) {
    && 0 < at < MAX_MINOR && at !in minors
    && if minor == 0 then forall k :: 0 < k < at ==> k in minors else at == minor
  }

  /** device_register, once the slot is found empty */
  function Added(s: State, d: int, major: int, minor: int, at: int): State
    requires major in s.table && s.table[major] in s.entries
  {
    var e := s.table[major];
    var life := if d in s.devs then s.devs[d].life + 1 else 0;
    var n := s.entries[e];
    s.(entries := s.entries[e := Entry(n.major, n.minors[at := Ref(d, life, minor == 0)], n.num + 1)],
       devs := s.devs[d := Device(major, minor, at, life, K.Fresh(REG), Staying, false, false)], live := s.live + 1)
  }

  /** __device_unregister: an entry left with no devices is taken out of the table. Asked for minor 0, __dev_slot_get leads to
      an empty slot or to none, so that the device is not found. */
  function Removed(s: State, d: int): State
    requires d in s.devs && s.devs[d].major in s.table && s.table[s.devs[d].major] in s.entries
  {
    var major, minor := s.devs[d].major, s.devs[d].minor;
    var e := s.table[major];
    var n := s.entries[e];
    if minor == 0 || minor !in n.minors || n.minors[minor].dev != d then s
    else
      var less := s.(entries := s.entries[e := Entry(n.major, n.minors - {minor}, n.num - 1)]);
      if n.num == 1 then less.(table := s.table - {major}, unlinked := s.unlinked + {e}) else less
  }

  /** The call is at a device and has not got its reference yet. */
  predicate HasRef(c: Call) {
    c.stage.AtDevice? || c.stage.Passed? || c.stage.Trying?
  }

  /** Calls of device_get that are inside their section. */
  ghost function Sections(s: State): set<int> {
    set r | r in s.calls && s.calls[r].Get?
  }

  /** No call of device_dup relies on the reference `k`. */
  ghost predicate Unused(s: State, d: int, k: int) {
    forall r :: r in s.calls && s.calls[r].Dup? && HasRef(s.calls[r]) && s.calls[r].stage.ref.dev == d ==> s.calls[r].via != k
  }

  function SetDev(s: State, d: int, v: Device): State {
    s.(devs := s.devs[d := v])
  }

  function SetStage(s: State, r: int, stage: Stage): State
    requires r in s.calls
  {
    s.(calls := s.calls[r := s.calls[r].(stage := stage)])
  }

  /** The lock section of device_unregister (with `leaving` Out) and of a release (with `swept` set). */
  ghost predicate Unlinks(s: State, d: int, e: int, v: Device, s': State)
    requires d in s.devs
  {
    && e !in s.entries
    && var t := Slot(s, s.devs[d].major, e);
       t.table[s.devs[d].major] in t.entries && s' == SetDev(Removed(t, d), d, v)
  }

  /** A step on the table or on a device. `e` names the entry a writer would make. References are balanced: one is given back
      only by who has it, and the one of the registration at most once, by device_unregister or by device_put. A device is
      registered again only after its release. */
  ghost predicate Writes(s: State, m: Move, s': State) {
    match m
    case Register(d, major, minor, at, e) =>
      && 0 < major < MAX_MAJOR && 0 <= minor < MAX_MINOR && e !in s.entries && (d in s.devs ==> s.devs[d].obj.released == 1)
      && var t := Slot(s, major, e);
         t.table[major] in t.entries && SlotFor(t.entries[t.table[major]].minors, minor, at) && s' == Added(t, d, major, minor, at)
    case Mark(d) => d in s.devs && REG in s.devs[d].obj.holders && s.devs[d].leaving.Staying? && s' == SetDev(s, d, s.devs[d].(leaving := Marked))
    case TakeOut(d, e) => d in s.devs && s.devs[d].leaving.Marked? && Unlinks(s, d, e, s.devs[d].(leaving := Out), s')
    case PutOwn(d) =>
      && d in s.devs && s.devs[d].leaving.Out? && Unused(s, d, REG)
      && s' == SetDev(s, d, s.devs[d].(obj := K.Minus(s.devs[d].obj, REG), leaving := Left))
    case Put(d, k) =>
      && d in s.devs && k in s.devs[d].obj.holders && Unused(s, d, k) && (k == REG ==> s.devs[d].leaving.Staying?)
      && s' == SetDev(s, d, s.devs[d].(obj := K.Minus(s.devs[d].obj, k), dropped := s.devs[d].dropped || k == REG))
    case KobjectGet(d, via, k) =>
      && d in s.devs && via in s.devs[d].obj.holders && k !in s.devs[d].obj.holders + {REG}
      && s' == SetDev(s, d, s.devs[d].(obj := K.Plus(s.devs[d].obj, k)))
    case Detach(d) =>
      && d in s.devs && s.devs[d].obj.ending && s.devs[d].obj.listed
      && s' == SetDev(s, d, s.devs[d].(obj := K.Detached(s.devs[d].obj))).(live := s.live - 1)
    case Sweep(d, e) =>
      && d in s.devs && s.devs[d].obj.ending && !s.devs[d].obj.listed && !s.devs[d].swept
      && Unlinks(s, d, e, s.devs[d].(swept := true), s')
    case Release(d) => d in s.devs && s.devs[d].obj.ending && s.devs[d].swept && s' == SetDev(s, d, s.devs[d].(obj := K.Released(s.devs[d].obj)))
    case CallRcu(e) => e in s.unlinked && s' == s.(unlinked := s.unlinked - {e}, waiting := s.waiting[e := Sections(s)])
    case Free(e) => e in s.waiting && s.waiting[e] !! Sections(s) && s' == s.(waiting := s.waiting - {e}, freed := s.freed + {e})
    case _ => false
  }

  /** A step of a call of device_get or device_dup: the loads of device_get up to the device, the test of the flag, and the
      loop of kobject_try_get. */
  ghost predicate Reads(s: State, m: Move, s': State) {
    match m
    case BeginGet(major, minor) =>
      && 0 < major < MAX_MAJOR && 0 < minor < MAX_MINOR
      && s' == s.(calls := s.calls[s.next := Get(major, minor, {}, Begun)], next := s.next + 1)
    case BeginDup(d, via) =>
      && d in s.devs && via in s.devs[d].obj.holders
      && s' == s.(calls := s.calls[s.next := Dup(via, AtDevice(Ref(d, s.devs[d].life, s.devs[d].minor == 0)))], next := s.next + 1)
    case ReadMajor(r) =>
      && r in s.calls && s.calls[r].Get? && s.calls[r].stage.Begun?
      && var c := s.calls[r];
         s' == if c.major !in s.table then SetStage(s, r, Failed)
               else s.(calls := s.calls[r := c.(held := c.held + {s.table[c.major]}, stage := AtEntry(s.table[c.major]))])
    case ReadSlot(r) =>
      && r in s.calls && s.calls[r].Get? && s.calls[r].stage.AtEntry? && s.calls[r].stage.e in s.entries
      && var minors := s.entries[s.calls[r].stage.e].minors;
         s' == SetStage(s, r, if s.calls[r].minor in minors then AtDevice(minors[s.calls[r].minor]) else Failed)
    case Test(r) =>
      && r in s.calls && s.calls[r].stage.AtDevice? && s.calls[r].stage.ref.dev in s.devs
      && s' == SetStage(s, r, if s.devs[s.calls[r].stage.ref.dev].leaving.Staying? then Passed(s.calls[r].stage.ref) else Failed)
    case Load(r) =>
      && r in s.calls && s.calls[r].stage.Passed? && s.calls[r].stage.ref.dev in s.devs
      && s' == SetStage(s, r, Trying(s.calls[r].stage.ref, s.devs[s.calls[r].stage.ref.dev].obj.count))
    case Swap(r, k) =>
      && r in s.calls && s.calls[r].stage.Trying? && s.calls[r].stage.seen != 0 && s.calls[r].stage.ref.dev in s.devs
      && var ref := s.calls[r].stage.ref;
         var v := s.devs[ref.dev];
         if v.obj.count != s.calls[r].stage.seen then s' == SetStage(s, r, Trying(ref, v.obj.count))
         else k !in v.obj.holders + {REG} && s' == SetDev(SetStage(s, r, Got(ref)), ref.dev, v.(obj := K.Plus(v.obj, k)))
    case Refuse(r) => r in s.calls && s.calls[r].stage.Trying? && s.calls[r].stage.seen == 0 && s' == SetStage(s, r, Failed)
    case End(r) => r in s.calls && (s.calls[r].stage.Failed? || s.calls[r].stage.Got?) && s' == s.(calls := s.calls - {r})
    case _ => false
  }

  ghost predicate Next(s: State, m: Move, s': State) {
    Writes(s, m, s') || Reads(s, m, s')
  }

  // ---------- the invariant ----------

  /** The count of devices is right in every entry. */
  ghost predicate Counted(s: State) {
    forall e :: e in s.entries ==> s.entries[e].num == |s.entries[e].minors|
  }

  /** An entry is in the table under its number, taken out of it, waiting, or freed, and only one of these. Outside the table
      it has no devices. */
  ghost predicate Placed(s: State) {
    && (forall m :: m in s.table ==> s.table[m] in s.entries && s.entries[s.table[m]].major == m)
    && (forall m :: m in s.table ==> s.table[m] !in s.unlinked && s.table[m] !in s.waiting && s.table[m] !in s.freed)
    && (forall e :: e in s.unlinked ==> e in s.entries && e !in s.waiting && e !in s.freed)
    && (forall e :: e in s.waiting ==> e in s.entries && e !in s.freed)
    && (forall e :: e in s.freed ==> e in s.entries)
    && (forall e :: e in s.entries ==> InTable(s, e) || (s.entries[e].minors == map[] && (e in s.unlinked || e in s.waiting || e in s.freed)))
  }

  ghost predicate InTable(s: State, e: int)
    requires e in s.entries
  {
    s.entries[e].major in s.table && s.table[s.entries[e].major] == e
  }

  /** A device that is to be found in the table: until it is taken out, and for ever if it asked for any free slot. */
  predicate Present(v: Device) {
    v.minor == 0 || (!v.swept && (v.leaving.Staying? || v.leaving.Marked?))
  }

  /** A slot leads to a device; unless it asked for any free slot, to one registered at that place. */
  ghost predicate RefOk(devs: map<int, Device>, major: int, k: int, ref: Ref) {
    && 0 < k < MAX_MINOR && ref.dev in devs && ref.life <= devs[ref.dev].life
    && (ref.life == devs[ref.dev].life <==> devs[ref.dev].major == major && devs[ref.dev].at == k)
    && (ref.life == devs[ref.dev].life ==> (ref.auto <==> devs[ref.dev].minor == 0))
    && (!ref.auto ==> ref.life == devs[ref.dev].life && Present(devs[ref.dev]))
  }

  ghost predicate Filled(s: State) {
    forall e, k :: e in s.entries && k in s.entries[e].minors ==> RefOk(s.devs, s.entries[e].major, k, s.entries[e].minors[k])
  }

  /** The device's slot has it. */
  ghost predicate InSlot(s: State, d: int)
    requires d in s.devs
  {
    var v := s.devs[d];
    && v.major in s.table && s.table[v.major] in s.entries
    && v.at in s.entries[s.table[v.major]].minors && s.entries[s.table[v.major]].minors[v.at] == Ref(d, v.life, v.minor == 0)
  }

  ghost predicate InPlace(s: State) {
    forall d :: d in s.devs ==> (InSlot(s, d) <==> Present(s.devs[d]))
  }

  ghost predicate DevOk(v: Device) {
    && K.Sound(v.obj) && (v.minor == 0 || v.minor == v.at)
    && (REG in v.obj.holders <==> !v.leaving.Left? && !v.dropped) && (v.dropped ==> v.leaving.Staying?)
    && (v.swept ==> v.obj.count == 0 && !v.obj.listed) && (v.obj.released == 1 ==> v.swept)
  }

  ghost function Objects(devs: map<int, Device>): map<int, K.Object> {
    map d | d in devs :: devs[d].obj
  }

  ghost predicate Owned(s: State) {
    && (forall d :: d in s.devs ==> DevOk(s.devs[d]))
    && s.live == |K.Listed(Objects(s.devs))|
  }

  /** A section has only entries that are not freed, and one that waits to be freed waits for it. */
  ghost predicate Safe(s: State) {
    && (forall r :: r in s.calls ==> r < s.next)
    && (forall r, e :: r in s.calls && s.calls[r].Get? && e in s.calls[r].held ==> e in s.entries && e !in s.freed && (e in s.waiting ==> r in s.waiting[e]))
    && (forall r :: r in s.calls && s.calls[r].stage.AtEntry? ==>
          s.calls[r].Get? && s.calls[r].stage.e in s.calls[r].held && s.calls[r].stage.e in s.entries && s.entries[s.calls[r].stage.e].major == s.calls[r].major)
  }

  /** What a call has found is a device, the one asked for unless it has been registered again since; the caller of device_dup
      still has its reference. */
  ghost predicate CallOk(devs: map<int, Device>, c: Call) {
    HasRef(c) || c.stage.Got? ==>
      && c.stage.ref.dev in devs && c.stage.ref.life <= devs[c.stage.ref.dev].life
      && (c.stage.ref.life == devs[c.stage.ref.dev].life && c.Get? ==> devs[c.stage.ref.dev].major == c.major && devs[c.stage.ref.dev].at == c.minor)
      && (c.Dup? && HasRef(c) ==> c.stage.ref.life == devs[c.stage.ref.dev].life && c.via in devs[c.stage.ref.dev].obj.holders)
      && (c.Dup? && c.stage.Trying? ==> c.stage.seen > 0)
  }

  ghost predicate Called(s: State) {
    forall r :: r in s.calls ==> CallOk(s.devs, s.calls[r])
  }

  ghost predicate Good(s: State) {
    Counted(s) && Placed(s) && Filled(s) && InPlace(s) && Owned(s) && Safe(s) && Called(s)
  }

  // ---------- a device changes ----------

  lemma ObjectsPut(devs: map<int, Device>, d: int, v: Device)
    ensures Objects(devs[d := v]) == Objects(devs)[d := v.obj]
  {
  }

  /** The number of live objects after a device has changed. */
  ghost function LiveAfter(s: State, d: int, v: Device): int {
    s.live + (if v.obj.listed then 1 else 0) - if d in s.devs && s.devs[d].obj.listed then 1 else 0
  }

  lemma OwnedPut(s: State, d: int, v: Device, s': State)
    requires Owned(s) && DevOk(v) && s'.devs == s.devs[d := v] && s'.live == LiveAfter(s, d, v)
    ensures Owned(s')
  {
    ObjectsPut(s.devs, d, v);
    K.ListedCount(Objects(s.devs), d, v.obj);
    assert d in s.devs ==> Objects(s.devs)[d] == s.devs[d].obj;
    hide K.Listed, Objects, DevOk;
  }

  /** A device changes its count or its progress, at the same place. */
  ghost predicate SamePlace(v: Device, w: Device) {
    v == w.(obj := v.obj, leaving := v.leaving, dropped := v.dropped, swept := v.swept) && (Present(v) <==> Present(w))
  }

  lemma RefSame(devs: map<int, Device>, d: int, v: Device, major: int, k: int, ref: Ref)
    requires RefOk(devs, major, k, ref) && d in devs && SamePlace(v, devs[d])
    ensures RefOk(devs[d := v], major, k, ref)
  {
  }

  lemma FilledSame(s: State, d: int, v: Device, s': State)
    requires Filled(s) && d in s.devs && SamePlace(v, s.devs[d]) && s'.devs == s.devs[d := v] && s'.entries == s.entries
    ensures Filled(s')
  {
    forall e, k | e in s'.entries && k in s'.entries[e].minors ensures RefOk(s'.devs, s'.entries[e].major, k, s'.entries[e].minors[k]) {
      RefSame(s.devs, d, v, s.entries[e].major, k, s.entries[e].minors[k]);
    }
  }

  lemma InPlaceSame(s: State, d: int, v: Device, s': State)
    requires InPlace(s) && d in s.devs && SamePlace(v, s.devs[d]) && s'.devs == s.devs[d := v] && s'.entries == s.entries && s'.table == s.table
    ensures InPlace(s')
  {
    forall x | x in s'.devs ensures InSlot(s', x) <==> Present(s'.devs[x]) {
      assert InSlot(s', x) <==> InSlot(s, x);
    }
  }

  /** The references that calls of device_dup rely on are still there. */
  ghost predicate KeepsUsed(s: State, d: int, v: Device) {
    forall r :: r in s.calls && s.calls[r].Dup? && HasRef(s.calls[r]) && s.calls[r].stage.ref.dev == d ==> s.calls[r].via in v.obj.holders
  }

  lemma CalledSame(s: State, d: int, v: Device, s': State)
    requires Called(s) && d in s.devs && SamePlace(v, s.devs[d]) && KeepsUsed(s, d, v) && s'.devs == s.devs[d := v] && s'.calls == s.calls
    ensures Called(s')
  {
    forall r | r in s'.calls ensures CallOk(s'.devs, s'.calls[r]) { assert CallOk(s.devs, s.calls[r]); }
  }

  lemma DevGood(s: State, d: int, v: Device, s': State)
    requires Good(s) && d in s.devs && SamePlace(v, s.devs[d]) && DevOk(v) && KeepsUsed(s, d, v)
    requires s' == SetDev(s, d, v).(live := LiveAfter(s, d, v))
    ensures Good(s')
  {
    OwnedPut(s, d, v, s');
    FilledSame(s, d, v, s');
    InPlaceSame(s, d, v, s');
    CalledSame(s, d, v, s');
    assert Counted(s') && Placed(s') && Safe(s') by { hide Filled, InPlace, Owned, Called; TableSame(s, s'); }
    hide Counted, Placed, Filled, InPlace, Owned, Safe, Called;
  }

  lemma TableSame(s: State, s': State)
    requires Counted(s) && Placed(s) && Safe(s) && s' == s.(devs := s'.devs, live := s'.live)
    ensures Counted(s') && Placed(s') && Safe(s')
  {
  }

  /** A reference given back, for calls of device_dup that rely on others. */
  lemma UnusedKeeps(s: State, d: int, k: int, v: Device)
    requires Called(s) && d in s.devs && Unused(s, d, k) && v.obj.holders == s.devs[d].obj.holders - {k}
    ensures KeepsUsed(s, d, v)
  {
    forall r | r in s.calls && s.calls[r].Dup? && HasRef(s.calls[r]) && s.calls[r].stage.ref.dev == d ensures s.calls[r].via in v.obj.holders {
      assert CallOk(s.devs, s.calls[r]);
    }
  }

  lemma MoreKeeps(s: State, d: int, v: Device)
    requires Called(s) && d in s.devs && s.devs[d].obj.holders <= v.obj.holders
    ensures KeepsUsed(s, d, v)
  {
    forall r | r in s.calls && s.calls[r].Dup? && HasRef(s.calls[r]) && s.calls[r].stage.ref.dev == d ensures s.calls[r].via in v.obj.holders {
      assert CallOk(s.devs, s.calls[r]);
    }
  }

  lemma MarkGood(s: State, d: int, s': State)
    requires Good(s) && Writes(s, Mark(d), s')
    ensures Good(s')
  {
    var v := s.devs[d].(leaving := Marked);
    assert DevOk(s.devs[d]);
    MoreKeeps(s, d, v);
    hide Good;
    DevGood(s, d, v, s');
  }

  lemma PutOwnGood(s: State, d: int, s': State)
    requires Good(s) && Writes(s, PutOwn(d), s')
    ensures Good(s')
  {
    var v := s'.devs[d];
    assert DevOk(s.devs[d]);
    K.PutSound(s.devs[d].obj, REG);
    UnusedKeeps(s, d, REG, v);
    hide Good;
    DevGood(s, d, v, s');
  }

  lemma PutGood(s: State, d: int, k: int, s': State)
    requires Good(s) && Writes(s, Put(d, k), s')
    ensures Good(s')
  {
    var v := s'.devs[d];
    assert DevOk(s.devs[d]);
    K.PutSound(s.devs[d].obj, k);
    UnusedKeeps(s, d, k, v);
    hide Good;
    DevGood(s, d, v, s');
  }

  /** A device with a count above 0 gets one reference more. */
  lemma PlusGood(s: State, d: int, k: int, s': State)
    requires Good(s) && d in s.devs && s.devs[d].obj.count != 0 && k !in s.devs[d].obj.holders + {REG}
    requires s' == SetDev(s, d, s.devs[d].(obj := K.Plus(s.devs[d].obj, k)))
    ensures Good(s')
  {
    var v := s'.devs[d];
    assert DevOk(s.devs[d]);
    K.PlusSound(s.devs[d].obj, k);
    MoreKeeps(s, d, v);
    hide Good;
    DevGood(s, d, v, s');
  }

  lemma EndingGood(s: State, m: Move, s': State)
    requires Good(s) && Writes(s, m, s') && (m.Detach? || m.Release?)
    ensures Good(s')
  {
    var v := s'.devs[m.d];
    assert DevOk(s.devs[m.d]);
    MoreKeeps(s, m.d, v);
    hide Good;
    DevGood(s, m.d, v, s');
  }

  // ---------- the table changes ----------

  /** A new entry with no devices. */
  lemma SlotGood(s: State, major: int, e: int)
    requires Good(s) && e !in s.entries
    ensures Good(Slot(s, major, e)) && major in Slot(s, major, e).table && Slot(s, major, e).table[major] in Slot(s, major, e).entries
  {
    var t := Slot(s, major, e);
    SlotPlaced(s, major, e);
    SlotInPlace(s, major, e);
    SlotSafe(s, major, e);
    assert Counted(t) && Filled(t);
    assert major in s.table ==> s.table[major] in s.entries;
    hide Placed, Filled, InPlace, Owned, Safe, Called;
    assert Owned(t) && Called(t) by { DevsSame(s, t); }
  }

  lemma DevsSame(s: State, s': State)
    requires Owned(s) && Called(s) && s'.devs == s.devs && s'.live == s.live && s'.calls == s.calls
    ensures Owned(s') && Called(s')
  {
  }

  lemma SlotPlaced(s: State, major: int, e: int)
    requires Placed(s) && e !in s.entries
    ensures Placed(Slot(s, major, e))
  {
    var t := Slot(s, major, e);
    forall x | x in s.entries && InTable(s, x) ensures InTable(t, x) { }
  }

  lemma SlotInPlace(s: State, major: int, e: int)
    requires InPlace(s) && Placed(s) && e !in s.entries
    ensures InPlace(Slot(s, major, e))
  {
    var t := Slot(s, major, e);
    forall d | d in t.devs ensures InSlot(t, d) <==> InSlot(s, d) { }
  }

  lemma SlotSafe(s: State, major: int, e: int)
    requires Safe(s) && e !in s.entries
    ensures Safe(Slot(s, major, e))
  {
  }

  /** An entry of the table gets other devices. */
  lemma MinorsPlaced(s: State, m: int, minors: map<int, Ref>, s': State)
    requires Placed(s) && m in s.table && s' == s.(entries := s'.entries, devs := s'.devs, live := s'.live)
    requires s'.entries == s.entries[s.table[m] := Entry(m, minors, |minors|)]
    ensures Placed(s')
  {
    forall x | x in s.entries && InTable(s, x) ensures InTable(s', x) { }
  }

  lemma MinorsSafe(s: State, m: int, minors: map<int, Ref>, s': State)
    requires Placed(s) && Counted(s) && Safe(s) && m in s.table && s' == s.(entries := s'.entries, devs := s'.devs, live := s'.live)
    requires s'.entries == s.entries[s.table[m] := Entry(m, minors, |minors|)]
    ensures Counted(s') && Safe(s')
  {
    EntryOf(s, m);
    hide Placed;
    assert Counted(s') by { hide Safe; }
    hide Counted;
    MinorsHeld(s, s.table[m], Entry(m, minors, |minors|), s');
  }

  lemma MinorsHeld(s: State, e: int, n: Entry, s': State)
    requires Safe(s) && e in s.entries && n.major == s.entries[e].major && s' == s.(entries := s.entries[e := n], devs := s'.devs, live := s'.live)
    ensures Safe(s')
  {
  }

  lemma EntryOf(s: State, m: int)
    requires Counted(s) && Placed(s) && m in s.table
    ensures s.table[m] in s.entries && s.entries[s.table[m]].major == m && s.entries[s.table[m]].num == |s.entries[s.table[m]].minors|
  {
    var e := s.table[m];
    assert e in s.entries;
    hide Placed;
    assert s.entries[e].num == |s.entries[e].minors|;
  }

  // ---------- registration ----------

  lemma MinorsGrow(minors: map<int, Ref>, at: int, ref: Ref)
    requires at !in minors
    ensures |minors[at := ref]| == |minors| + 1
  {
    assert minors[at := ref].Keys == minors.Keys + {at};
    assert |minors[at := ref]| == |minors[at := ref].Keys| && |minors| == |minors.Keys|;
  }

  /** A device that may be registered is in no slot but one it once got by asking for any. */
  lemma OldRefs(s: State, e: int, k: int)
    requires Filled(s) && Owned(s) && e in s.entries && k in s.entries[e].minors && s.devs[s.entries[e].minors[k].dev].obj.released == 1
    requires s.entries[e].minors[k].dev in s.devs
    ensures s.entries[e].minors[k].auto
  {
    var ref := s.entries[e].minors[k];
    assert RefOk(s.devs, s.entries[e].major, k, ref);
    assert DevOk(s.devs[ref.dev]);
  }

  /** A device registered again, in its new slot. */
  ghost predicate NewLife(s: State, d: int, major: int, at: int, v: Device) {
    && (d in s.devs ==> s.devs[d].obj.released == 1 && v.life == s.devs[d].life + 1)
    && v.major == major && v.at == at && (v.minor == 0 || v.minor == at) && Present(v) && 0 < at < MAX_MINOR
  }

  lemma AddedFilled(s: State, d: int, major: int, at: int, v: Device, s': State)
    requires Filled(s) && Owned(s) && Placed(s) && major in s.table && at !in s.entries[s.table[major]].minors && NewLife(s, d, major, at, v)
    requires var n := s.entries[s.table[major]];
             s'.entries == s.entries[s.table[major] := Entry(major, n.minors[at := Ref(d, v.life, v.minor == 0)], n.num + 1)] && s'.devs == s.devs[d := v]
    ensures Filled(s')
  {
    forall e, k | e in s'.entries && k in s'.entries[e].minors ensures RefOk(s'.devs, s'.entries[e].major, k, s'.entries[e].minors[k]) {
      if e != s.table[major] || k != at {
        var ref := s.entries[e].minors[k];
        assert s'.entries[e].minors[k] == ref && RefOk(s.devs, s.entries[e].major, k, ref);
        if ref.dev == d {
          OldRefs(s, e, k);
          assert s.entries[e].minors != map[] && InTable(s, e);
        }
      }
    }
  }

  lemma AddedInPlace(s: State, d: int, major: int, at: int, v: Device, s': State)
    requires InPlace(s) && Placed(s) && major in s.table && at !in s.entries[s.table[major]].minors && NewLife(s, d, major, at, v)
    requires var n := s.entries[s.table[major]];
             s'.entries == s.entries[s.table[major] := Entry(major, n.minors[at := Ref(d, v.life, v.minor == 0)], n.num + 1)] && s'.devs == s.devs[d := v]
    requires s'.table == s.table
    ensures InPlace(s')
  {
    forall x | x in s'.devs ensures InSlot(s', x) <==> Present(s'.devs[x]) {
      if x != d { assert InSlot(s', x) <==> InSlot(s, x); }
    }
  }

  lemma AddedCalled(s: State, d: int, major: int, at: int, v: Device, s': State)
    requires Called(s) && Owned(s) && NewLife(s, d, major, at, v) && s'.devs == s.devs[d := v] && s'.calls == s.calls
    ensures Called(s')
  {
    forall r | r in s'.calls ensures CallOk(s'.devs, s'.calls[r]) {
      assert CallOk(s.devs, s.calls[r]);
      if d in s.devs { assert DevOk(s.devs[d]) && s.devs[d].obj.holders == {}; }
    }
  }

  lemma FreshOk(v: Device)
    requires v.obj == K.Fresh(REG) && v.leaving == Staying && !v.dropped && !v.swept && (v.minor == 0 || v.minor == v.at)
    ensures DevOk(v)
  {
  }

  lemma RegisterGood(s: State, d: int, major: int, minor: int, at: int, e: int, s': State)
    requires Good(s) && Writes(s, Register(d, major, minor, at, e), s')
    ensures Good(s')
  {
    hide Good, SlotFor, DevOk;
    SlotGood(s, major, e);
    var t := Slot(s, major, e);
    var n := t.entries[t.table[major]];
    var v := s'.devs[d];
    if d in s.devs { Unlisted(s, d); }
    EntryAt(t, major);
    assert 0 < at < MAX_MINOR && at !in n.minors && (minor == 0 || minor == at) by { SlotIs(n.minors, minor, at); }
    MinorsGrow(n.minors, at, Ref(d, v.life, minor == 0));
    FreshOk(v);
    assert NewLife(t, d, major, at, v) && s'.live == LiveAfter(t, d, v);
    AddedIsGood(t, d, major, at, v, s');
  }

  lemma SlotIs(minors: map<int, Ref>, minor: int, at: int)
    requires SlotFor(minors, minor, at)
    ensures 0 < at < MAX_MINOR && at !in minors && (minor == 0 || minor == at)
  {
  }

  lemma Unlisted(s: State, d: int)
    requires Good(s) && d in s.devs && s.devs[d].obj.released == 1
    ensures !s.devs[d].obj.listed
  {
    assert DevOk(s.devs[d]);
  }

  lemma EntryAt(s: State, m: int)
    requires Good(s) && m in s.table
    ensures s.table[m] in s.entries && s.entries[s.table[m]].major == m && s.entries[s.table[m]].num == |s.entries[s.table[m]].minors|
  {
    EntryOf(s, m);
  }

  lemma AddedIsGood(s: State, d: int, major: int, at: int, v: Device, s': State)
    requires Good(s) && major in s.table && s.table[major] in s.entries && at !in s.entries[s.table[major]].minors
    requires NewLife(s, d, major, at, v) && DevOk(v) && s'.live == LiveAfter(s, d, v) && s' == s.(entries := s'.entries, devs := s.devs[d := v], live := s'.live)
    requires var n := s.entries[s.table[major]];
             var more := n.minors[at := Ref(d, v.life, v.minor == 0)];
             n.num + 1 == |more| && s'.entries == s.entries[s.table[major] := Entry(major, more, n.num + 1)]
    ensures Good(s')
  {
    hide NewLife, DevOk;
    ghost var more := s.entries[s.table[major]].minors[at := Ref(d, v.life, v.minor == 0)];
    AddedFilled(s, d, major, at, v, s');
    AddedInPlace(s, d, major, at, v, s');
    AddedCalled(s, d, major, at, v, s');
    OwnedPut(s, d, v, s');
    MinorsPlaced(s, major, more, s');
    MinorsSafe(s, major, more, s');
    hide Counted, Placed, Filled, InPlace, Owned, Safe, Called;
  }

  // ---------- taking out ----------

  lemma MinorsShrink(minors: map<int, Ref>, k: int)
    requires k in minors
    ensures |minors - {k}| == |minors| - 1
  {
    assert minors.Keys == (minors - {k}).Keys + {k};
    assert |minors - {k}| == |(minors - {k}).Keys| && |minors| == |minors.Keys|;
  }

  /** An entry with no devices leaves the table. */
  lemma UnlinkGood(s: State, major: int)
    requires Good(s) && major in s.table && s.table[major] in s.entries && s.entries[s.table[major]].minors == map[]
    ensures Good(s.(table := s.table - {major}, unlinked := s.unlinked + {s.table[major]}))
  {
    var s' := s.(table := s.table - {major}, unlinked := s.unlinked + {s.table[major]});
    UnlinkPlaced(s, major, s');
    EntriesSame(s, s');
    hide Counted, Placed, Filled, InPlace, Owned, Safe, Called;
  }

  lemma UnlinkPlaced(s: State, major: int, s': State)
    requires Placed(s) && InPlace(s) && major in s.table && s.table[major] in s.entries && s.entries[s.table[major]].minors == map[]
    requires s' == s.(table := s.table - {major}, unlinked := s.unlinked + {s.table[major]})
    ensures Placed(s') && InPlace(s')
  {
    assert Placed(s') by {
      hide InPlace;
      forall e | e in s'.entries && e != s.table[major] ensures InTable(s', e) <==> InTable(s, e) { }
    }
    forall d | d in s'.devs ensures InSlot(s', d) <==> InSlot(s, d) { }
    hide Placed;
  }

  lemma EntriesSame(s: State, s': State)
    requires Counted(s) && Filled(s) && Owned(s) && Safe(s) && Called(s) && s' == s.(table := s'.table, unlinked := s'.unlinked)
    ensures Counted(s') && Filled(s') && Owned(s') && Safe(s') && Called(s')
  {
    hide DevOk, RefOk, CallOk, K.Listed, Objects;
  }

  /** The device after its slot has been emptied, with the slot asked for by number. */
  ghost predicate TakenOut(v: Device, w: Device) {
    v == w.(leaving := v.leaving, swept := v.swept) && !Present(v) && v.minor != 0 && v.minor == v.at && DevOk(v)
  }

  lemma TakenFilled(s: State, d: int, v: Device, s': State)
    requires Filled(s) && Placed(s) && d in s.devs && TakenOut(v, s.devs[d]) && v.major in s.table
    requires var n := s.entries[s.table[v.major]];
             s'.entries == s.entries[s.table[v.major] := Entry(v.major, n.minors - {v.minor}, n.num - 1)] && s'.devs == s.devs[d := v]
    ensures Filled(s')
  {
    forall e, k | e in s'.entries && k in s'.entries[e].minors ensures RefOk(s'.devs, s'.entries[e].major, k, s'.entries[e].minors[k]) {
      var ref := s.entries[e].minors[k];
      assert RefOk(s.devs, s.entries[e].major, k, ref);
      assert s.entries[e].minors != map[] && InTable(s, e);
      assert ref.dev != d || ref.auto;
    }
  }

  lemma TakenInPlace(s: State, d: int, v: Device, s': State)
    requires InPlace(s) && Placed(s) && d in s.devs && TakenOut(v, s.devs[d]) && v.major in s.table
    requires var n := s.entries[s.table[v.major]];
             && v.minor in n.minors && n.minors[v.minor].dev == d
             && s'.entries == s.entries[s.table[v.major] := Entry(v.major, n.minors - {v.minor}, n.num - 1)] && s'.devs == s.devs[d := v]
    requires s'.table == s.table
    ensures InPlace(s')
  {
    forall x | x in s'.devs ensures InSlot(s', x) <==> Present(s'.devs[x]) {
      if x != d { assert InSlot(s', x) <==> InSlot(s, x); }
    }
  }

  lemma TakenCalled(s: State, d: int, v: Device, s': State)
    requires Called(s) && d in s.devs && TakenOut(v, s.devs[d]) && s'.devs == s.devs[d := v] && s'.calls == s.calls
    ensures Called(s')
  {
    forall r | r in s'.calls ensures CallOk(s'.devs, s'.calls[r]) { assert CallOk(s.devs, s.calls[r]); }
  }

  /** The slot has been emptied and the device noted as taken out. */
  lemma TakenGood(s: State, d: int, v: Device, s': State)
    requires Good(s) && d in s.devs && TakenOut(v, s.devs[d]) && v.major in s.table && s.table[v.major] in s.entries
    requires var n := s.entries[s.table[v.major]];
             && v.minor in n.minors && n.minors[v.minor].dev == d
             && s' == SetDev(s.(entries := s.entries[s.table[v.major] := Entry(v.major, n.minors - {v.minor}, n.num - 1)]), d, v)
    ensures Good(s')
  {
    var n := s.entries[s.table[v.major]];
    EntryOf(s, v.major);
    MinorsShrink(n.minors, v.minor);
    var less := n.minors - {v.minor};
    TakenFilled(s, d, v, s');
    TakenInPlace(s, d, v, s');
    TakenCalled(s, d, v, s');
    OwnedPut(s, d, v, s');
    MinorsPlaced(s, v.major, less, s');
    MinorsSafe(s, v.major, less, s');
    hide Counted, Placed, Filled, InPlace, Owned, Safe, Called;
  }

  /** The lock section of an unregistration or a release. */
  lemma UnlinksGood(s: State, d: int, e: int, v: Device, s': State)
    requires Good(s) && d in s.devs && Unlinks(s, d, e, v, s') && DevOk(v)
    requires v == s.devs[d].(leaving := v.leaving, swept := v.swept) && (v.minor == 0 || !Present(v))
    ensures Good(s')
  {
    SlotGood(s, v.major, e);
    var t := Slot(s, v.major, e);
    hide Unlinks, DevOk;
    UnlinkedGood(t, d, v);
  }

  lemma UnlinkedGood(s: State, d: int, v: Device)
    requires Good(s) && d in s.devs && DevOk(v) && v.major in s.table && s.table[v.major] in s.entries
    requires v == s.devs[d].(leaving := v.leaving, swept := v.swept) && (v.minor == 0 || !Present(v))
    ensures Good(SetDev(Removed(s, d), d, v))
  {
    var major, n := v.major, s.entries[s.table[v.major]];
    EntryOf(s, major);
    if v.minor == 0 || v.minor !in n.minors || n.minors[v.minor].dev != d {
      MoreKeeps(s, d, v);
      assert !Present(s.devs[d]) || v.minor == 0 by { assert InSlot(s, d) <==> Present(s.devs[d]); assert DevOk(v); }
      hide Good, DevOk;
      DevGood(s, d, v, SetDev(s, d, v));
    } else {
      assert TakenOut(v, s.devs[d]);
      hide Good, DevOk, TakenOut, Present;
      var less := SetDev(s.(entries := s.entries[s.table[major] := Entry(major, n.minors - {v.minor}, n.num - 1)]), d, v);
      MinorsShrink(n.minors, v.minor);
      TakenGood(s, d, v, less);
      if n.num == 1 {
        assert n.minors - {v.minor} == map[];
        UnlinkGood(less, major);
      }
    }
  }

  lemma LeaveGood(s: State, m: Move, s': State)
    requires Good(s) && Writes(s, m, s') && (m.TakeOut? || m.Sweep?)
    ensures Good(s')
  {
    var w := s.devs[m.d];
    var v := if m.TakeOut? then w.(leaving := Out) else w.(swept := true);
    assert DevOk(w) && DevOk(v);
    hide Good;
    UnlinksGood(s, m.d, m.e, v, s');
  }

  // ---------- grace periods ----------

  lemma RcuGood(s: State, m: Move, s': State)
    requires Good(s) && Writes(s, m, s') && (m.CallRcu? || m.Free?)
    ensures Good(s')
  {
    RcuSame(s, s');
    DevsSame(s, s');
    RcuPlaced(s, m, s');
    RcuSafe(s, m, s');
    hide Counted, Placed, Filled, InPlace, Owned, Safe, Called;
  }

  lemma RcuSafe(s: State, m: Move, s': State)
    requires Safe(s) && Writes(s, m, s') && (m.CallRcu? || m.Free?)
    ensures Safe(s')
  {
    forall r, e | r in s'.calls && s'.calls[r].Get? && e in s'.calls[r].held ensures e in s'.entries && e !in s'.freed && (e in s'.waiting ==> r in s'.waiting[e]) {
      assert r in Sections(s);
    }
  }

  lemma RcuSame(s: State, s': State)
    requires Counted(s) && Filled(s) && InPlace(s) && s' == s.(unlinked := s'.unlinked, waiting := s'.waiting, freed := s'.freed)
    ensures Counted(s') && Filled(s') && InPlace(s')
  {
    forall d | d in s'.devs ensures InSlot(s', d) <==> InSlot(s, d) { }
  }

  lemma RcuPlaced(s: State, m: Move, s': State)
    requires Placed(s) && Writes(s, m, s') && (m.CallRcu? || m.Free?)
    ensures Placed(s')
  {
    forall e | e in s'.entries ensures InTable(s', e) <==> InTable(s, e) { }
  }

  // ---------- calls ----------

  /** A call, added or changed, that is in order. */
  lemma CallGood(s: State, r: int, c: Call, s': State)
    requires Good(s) && CallOk(s.devs, c) && (r in s.calls || r == s.next) && s' == s.(calls := s.calls[r := c], next := s'.next) && r < s'.next && s.next <= s'.next
    requires c.Get? ==> forall e :: e in c.held ==> e in s.entries && e !in s.freed && (e in s.waiting ==> r in s.waiting[e])
    requires c.stage.AtEntry? ==> c.Get? && c.stage.e in c.held && c.stage.e in s.entries && s.entries[c.stage.e].major == c.major
    ensures Good(s')
  {
    assert Safe(s') by { hide Placed, Filled, InPlace, Owned, Called, CallOk; }
    assert Called(s') by { hide Placed, Filled, InPlace, Owned, Safe, CallOk; }
    hide CallOk, Safe, Called;
    CallSame(s, s');
  }

  lemma CallSame(s: State, s': State)
    requires Counted(s) && Placed(s) && Filled(s) && InPlace(s) && Owned(s) && s' == s.(calls := s'.calls, next := s'.next)
    ensures Counted(s') && Placed(s') && Filled(s') && InPlace(s') && Owned(s')
  {
    assert Placed(s') by { hide Filled, InPlace, Owned; forall e | e in s'.entries ensures InTable(s', e) <==> InTable(s, e) { } }
    assert InPlace(s') by { hide Placed, Filled, Owned; forall d | d in s'.devs ensures InSlot(s', d) <==> InSlot(s, d) { } }
    hide Placed, InPlace, RefOk, DevOk, K.Listed, Objects;
  }

  /** A call goes on to a stage that has no entry. */
  lemma StageGood(s: State, r: int, stage: Stage)
    requires Good(s) && r in s.calls && !stage.AtEntry? && CallOk(s.devs, s.calls[r].(stage := stage))
    ensures Good(SetStage(s, r, stage))
  {
    assert r < s.next;
    var c := s.calls[r].(stage := stage);
    assert c.Get? ==> forall e :: e in c.held ==> e in s.entries && e !in s.freed && (e in s.waiting ==> r in s.waiting[e]);
    hide Good, CallOk;
    CallGood(s, r, c, SetStage(s, r, stage));
  }

  lemma BeginGood(s: State, m: Move, s': State)
    requires Good(s) && Reads(s, m, s') && (m.BeginGet? || m.BeginDup?)
    ensures Good(s')
  {
    var c := s'.calls[s.next];
    assert CallOk(s.devs, c);
    hide Good, CallOk;
    CallGood(s, s.next, c, s');
  }

  lemma ReadMajorGood(s: State, r: int, s': State)
    requires Good(s) && Reads(s, ReadMajor(r), s')
    ensures Good(s')
  {
    var c := s.calls[r];
    if c.major !in s.table {
      hide Good;
      StageGood(s, r, Failed);
    } else {
      EntryOf(s, c.major);
      assert r < s.next;
      assert s.table[c.major] !in s.waiting && s.table[c.major] !in s.freed;
      var c' := s'.calls[r];
      assert forall e :: e in c.held ==> e in s.entries && e !in s.freed && (e in s.waiting ==> r in s.waiting[e]);
      hide Good;
      CallGood(s, r, c', s');
    }
  }

  lemma ReadSlotGood(s: State, r: int, s': State)
    requires Good(s) && Reads(s, ReadSlot(r), s')
    ensures Good(s')
  {
    var c := s.calls[r];
    var n := s.entries[c.stage.e];
    assert n.major == c.major;
    if c.minor in n.minors {
      assert RefOk(s.devs, n.major, c.minor, n.minors[c.minor]);
      hide Good;
      StageGood(s, r, AtDevice(n.minors[c.minor]));
    } else {
      hide Good;
      StageGood(s, r, Failed);
    }
  }

  /** The tests of the flag and of the count. The caller of device_dup has a reference, so that it never reads 0. */
  lemma TestGood(s: State, m: Move, s': State)
    requires Good(s) && Reads(s, m, s') && (m.Test? || m.Load? || m.Refuse?)
    ensures Good(s')
  {
    var c := s.calls[m.r];
    assert CallOk(s.devs, c);
    var d := c.stage.ref.dev;
    assert DevOk(s.devs[d]);
    assert c.Dup? ==> s.devs[d].obj.count > 0;
    hide Good;
    StageGood(s, m.r, s'.calls[m.r].stage);
  }

  lemma SwapGood(s: State, r: int, k: int, s': State)
    requires Good(s) && Reads(s, Swap(r, k), s')
    ensures Good(s')
  {
    var c := s.calls[r];
    assert CallOk(s.devs, c);
    var d := c.stage.ref.dev;
    assert DevOk(s.devs[d]);
    assert c.Dup? ==> s.devs[d].obj.count > 0;
    hide Good;
    StageGood(s, r, s'.calls[r].stage);
    if s'.calls[r].stage.Got? { PlusGood(SetStage(s, r, Got(c.stage.ref)), d, k, s'); }
  }

  lemma EndGood(s: State, r: int, s': State)
    requires Good(s) && Reads(s, End(r), s')
    ensures Good(s')
  {
    assert Safe(s') by { hide Placed, Filled, InPlace, Owned, Called; }
    assert Called(s') by { hide Placed, Filled, InPlace, Owned, Safe, CallOk; }
    hide CallOk, Safe, Called;
    CallSame(s, s');
  }

  // ---------- all runs ----------

  lemma NextGood(s: State, m: Move, s': State)
    requires Good(s) && Next(s, m, s')
    ensures Good(s')
  {
    hide Good;
    match m {
      case Register(d, major, minor, at, e) => RegisterGood(s, d, major, minor, at, e, s');
      case Mark(d) => MarkGood(s, d, s');
      case TakeOut(_, _) => LeaveGood(s, m, s');
      case PutOwn(d) => PutOwnGood(s, d, s');
      case Put(d, k) => PutGood(s, d, k, s');
      case KobjectGet(d, via, k) => KobjectGetGood(s, d, via, k, s');
      case Detach(_) => EndingGood(s, m, s');
      case Sweep(_, _) => LeaveGood(s, m, s');
      case Release(_) => EndingGood(s, m, s');
      case CallRcu(_) => RcuGood(s, m, s');
      case Free(_) => RcuGood(s, m, s');
      case BeginGet(_, _) => BeginGood(s, m, s');
      case BeginDup(_, _) => BeginGood(s, m, s');
      case ReadMajor(r) => ReadMajorGood(s, r, s');
      case ReadSlot(r) => ReadSlotGood(s, r, s');
      case Swap(r, k) => SwapGood(s, r, k, s');
      case End(r) => EndGood(s, r, s');
      case _ => TestGood(s, m, s');
    }
  }

  lemma KobjectGetGood(s: State, d: int, via: int, k: int, s': State)
    requires Good(s) && Writes(s, KobjectGet(d, via, k), s')
    ensures Good(s')
  {
    assert DevOk(s.devs[d]);
    assert s.devs[d].obj.count != 0;
    hide Good;
    PlusGood(s, d, k, s');
  }

  ghost const START := State(map[], map[], {}, map[], {}, map[], 0, map[], 0)

  ghost predicate IsRun(states: seq<State>, moves: seq<Move>) {
    && |states| == |moves| + 1 && states[0] == START
    && forall i :: 0 <= i < |moves| ==> Next(states[i], moves[i], states[i + 1])
  }

  lemma StartGood()
    ensures Good(START)
  {
    assert K.Listed(Objects(START.devs)) == {};
  }

  lemma {:induction false} RunGood(states: seq<State>, moves: seq<Move>, i: nat)
    requires IsRun(states, moves) && i < |states|
    ensures Good(states[i])
  {
    hide Good, Next;
    if i == 0 {
      StartGood();
    } else {
      RunGood(states, moves, i - 1);
      NextGood(states[i - 1], moves[i - 1], states[i]);
    }
  }

  // ---------- what holds in every run ----------

  /** A device found in the table is the one registered at that place, unreleased, with references out, unless it asked for any
      free slot; one whose first reference was given back other than by device_unregister may have none left. */
  lemma FoundAlive(states: seq<State>, moves: seq<Move>, i: nat, major: int, minor: int)
    requires IsRun(states, moves) && i < |states| && major in states[i].table
    requires states[i].table[major] in states[i].entries && minor in states[i].entries[states[i].table[major]].minors
    ensures var ref := states[i].entries[states[i].table[major]].minors[minor];
            && ref.dev in states[i].devs && var v := states[i].devs[ref.dev];
            && (!ref.auto ==> v.major == major && v.minor == minor && v.obj.released == 0 && (v.obj.holders != {} || v.dropped))
            && (ref.auto && ref.life == v.life ==> v.major == major && v.minor == 0)
  {
    hide IsRun;
    RunGood(states, moves, i);
    var s := states[i];
    EntryOf(s, major);
    var e := s.table[major];
    var ref := s.entries[e].minors[minor];
    assert RefOk(s.devs, s.entries[e].major, minor, ref);
    assert DevOk(s.devs[ref.dev]);
    hide Good;
  }

  /** A device is released at most once for each registration, with no reference out; without references its release has begun;
      and whoever has a reference has an unreleased device. */
  lemma ReleasedOnce(states: seq<State>, moves: seq<Move>, i: nat, d: int)
    requires IsRun(states, moves) && i < |states| && d in states[i].devs
    ensures var b := states[i].devs[d].obj;
            && b.count == |b.holders| && b.released <= 1 && (b.holders != {} ==> b.released == 0)
            && (b.holders == {} ==> b.ending || b.released == 1)
  {
    hide IsRun;
    RunGood(states, moves, i);
    assert DevOk(states[i].devs[d]);
  }

  /** The number of live objects is that of the devices not yet detached, and the count of every entry is that of its devices. */
  lemma CountsRight(states: seq<State>, moves: seq<Move>, i: nat)
    requires IsRun(states, moves) && i < |states|
    ensures states[i].live == |set d | d in states[i].devs && states[i].devs[d].obj.listed|
    ensures forall e :: e in states[i].entries ==> states[i].entries[e].num == |states[i].entries[e].minors|
  {
    hide IsRun;
    RunGood(states, moves, i);
    assert K.Listed(Objects(states[i].devs)) == set d | d in states[i].devs && states[i].devs[d].obj.listed;
  }

  /** No section, up to its end, has an entry that has been freed. */
  lemma NeverFreed(states: seq<State>, moves: seq<Move>, i: nat, r: int, e: int)
    requires IsRun(states, moves) && i < |states|
    ensures r in states[i].calls && states[i].calls[r].Get? && e in states[i].calls[r].held ==> e in states[i].entries && e !in states[i].freed
  {
    hide IsRun;
    RunGood(states, moves, i);
  }

  /** A successful device_get or device_dup gives one new reference to a device that is not released, nor about to be. It is the
      one device_get was asked for unless the device has been registered again since its slot was read. */
  lemma GetReturns(states: seq<State>, moves: seq<Move>, i: nat, r: int, k: int)
    requires IsRun(states, moves) && i < |moves| && moves[i] == Swap(r, k) && r in states[i + 1].calls && states[i + 1].calls[r].stage.Got?
    ensures r in states[i].calls && states[i].calls[r].stage.Trying? && states[i].calls[r].stage.ref.dev in states[i].devs
    ensures var ref := states[i].calls[r].stage.ref;
            var v := states[i].devs[ref.dev];
            && states[i + 1].calls[r].stage.ref == ref
            && v.obj.count > 0 && v.obj.released == 0 && !v.obj.ending && k !in v.obj.holders
            && states[i + 1].devs == states[i].devs[ref.dev := v.(obj := v.obj.(count := v.obj.count + 1, holders := v.obj.holders + {k}))]
            && states[i + 1].entries == states[i].entries && states[i + 1].table == states[i].table
            && (states[i].calls[r].Get? && ref.life == v.life ==> v.major == states[i].calls[r].major && v.at == states[i].calls[r].minor)
  {
    RunGood(states, moves, i);
    var s, s' := states[i], states[i + 1];
    assert Next(s, Swap(r, k), s');
    assert CallOk(s.devs, s.calls[r]);
    assert DevOk(s.devs[s.calls[r].stage.ref.dev]);
  }

  /** device_dup by someone with a reference fails only because of the flag: it never reads a count of 0. */
  lemma DupNotRefused(states: seq<State>, moves: seq<Move>, i: nat, r: int)
    requires IsRun(states, moves) && i < |states| && r in states[i].calls && states[i].calls[r].Dup? && HasRef(states[i].calls[r])
    ensures states[i].calls[r].stage.Trying? ==> states[i].calls[r].stage.seen > 0
    ensures states[i].calls[r].stage.ref.dev in states[i].devs && states[i].devs[states[i].calls[r].stage.ref.dev].obj.released == 0
  {
    hide IsRun;
    RunGood(states, moves, i);
    assert CallOk(states[i].devs, states[i].calls[r]);
    assert DevOk(states[i].devs[states[i].calls[r].stage.ref.dev]);
  }

  /** Going through the table changes the device alone. */
  lemma UnlinksDevs(s: State, d: int, e: int, v: Device, s': State)
    requires d in s.devs && Unlinks(s, d, e, v, s')
    ensures s'.devs == s.devs[d := v] && s'.calls == s.calls
  {
  }

  /** What a step on the table or on a device does to a device: nothing, a new registration, or a change of its count. */
  lemma WritesDevs(s: State, m: Move, s': State, d: int)
    requires Writes(s, m, s') && d in s.devs
    ensures d in s'.devs && (s'.devs[d].life == s.devs[d].life || (m.Register? && m.d == d && s'.devs[d].life == s.devs[d].life + 1))
    ensures s'.devs[d].life == s.devs[d].life && s.devs[d].obj.holders == {} ==> s'.devs[d].obj.count == s.devs[d].obj.count || m.PutOwn?
  {
    hide Unlinks;
    if m.TakeOut? {
      UnlinksDevs(s, m.d, m.e, s.devs[m.d].(leaving := Out), s');
    } else if m.Sweep? {
      UnlinksDevs(s, m.d, m.e, s.devs[m.d].(swept := true), s');
    } else if m.Register? {
      assert s'.devs == s.devs[m.d := s'.devs[m.d]];
    }
  }

  lemma ReadsDevs(s: State, m: Move, s': State, d: int)
    requires Reads(s, m, s') && d in s.devs
    ensures d in s'.devs && s'.devs[d].life == s.devs[d].life
    ensures !(m.Swap? && s.calls[m.r].stage.ref.dev == d && s.devs[d].obj.count != 0) ==> s'.devs[d] == s.devs[d]
  {
  }

  lemma DeadStep(s: State, m: Move, s': State, d: int)
    requires Owned(s) && Next(s, m, s') && d in s.devs && s.devs[d].obj.count == 0
    ensures d in s'.devs && s.devs[d].life <= s'.devs[d].life
    ensures s'.devs[d].life == s.devs[d].life ==> s'.devs[d].obj.count == 0
  {
    assert DevOk(s.devs[d]);
    assert s.devs[d].obj.holders == {} && (s.devs[d].leaving.Left? || s.devs[d].leaving.Staying?);
    if Writes(s, m, s') {
      assert m.PutOwn? ==> m.d != d;
      WritesDevs(s, m, s', d);
      if m.PutOwn? { assert s'.devs[d] == s.devs[d]; }
      hide Writes;
    } else {
      hide Writes, Reads;
      ReadsDevs(s, m, s', d);
    }
  }

  lemma LifeStep(s: State, m: Move, s': State, d: int)
    requires Next(s, m, s') && d in s.devs
    ensures d in s'.devs && s.devs[d].life <= s'.devs[d].life
  {
    hide Writes, Reads;
    if Writes(s, m, s') { WritesDevs(s, m, s', d); } else { ReadsDevs(s, m, s', d); }
  }

  /** Once the count has come to 0 no reference is ever given out again, by device_get or otherwise, before the device is
      registered again. */
  lemma {:induction false} StaysDead(states: seq<State>, moves: seq<Move>, i: nat, j: nat, d: int)
    requires IsRun(states, moves) && i <= j < |states| && d in states[i].devs && states[i].devs[d].obj.count == 0
    ensures d in states[j].devs && states[i].devs[d].life <= states[j].devs[d].life
    ensures states[j].devs[d].life == states[i].devs[d].life ==> states[j].devs[d].obj.count == 0
    decreases j
  {
    hide Good, Next;
    if j > i {
      StaysDead(states, moves, i, j - 1, d);
      RunGood(states, moves, j - 1);
      var s, m, s' := states[j - 1], moves[j - 1], states[j];
      LifeStep(s, m, s', d);
      if s.devs[d].life == states[i].devs[d].life { assert Owned(s) by { OwnedOf(s); } DeadStep(s, m, s', d); }
    }
  }

  // ---------- entries with no devices ----------

  ghost predicate EmptyEntry(s: State, major: int) {
    major in s.table && s.table[major] in s.entries && s.entries[s.table[major]].minors == map[]
  }

  /** Going through the table to take a device out leaves its major number an entry with no devices exactly if there were none
      under that number before, in an entry or without one. */
  lemma LeavesEmpty(s: State, m: Move, s': State)
    requires Good(s) && Next(s, m, s') && (m.TakeOut? || m.Sweep?)
    ensures var major := s.devs[m.d].major;
            && (EmptyEntry(s', major) <==> major !in s.table || EmptyEntry(s, major))
            && (forall x :: x != major ==> (EmptyEntry(s', x) <==> EmptyEntry(s, x)))
  {
    var major := s.devs[m.d].major;
    SlotGood(s, major, m.e);
    var t := Slot(s, major, m.e);
    SlotEmpty(s, major, m.e);
    hide Good, Slot, EmptyEntry;
    RemovedEmpty(t, m.d);
    assert forall x :: EmptyEntry(s', x) <==> EmptyEntry(Removed(t, m.d), x) by { hide *; SameTable(Removed(t, m.d), s'); }
  }

  lemma SameTable(s: State, s': State)
    requires s'.table == s.table && s'.entries == s.entries
    ensures forall x :: EmptyEntry(s', x) <==> EmptyEntry(s, x)
  {
  }

  lemma SlotEmpty(s: State, major: int, e: int)
    requires Placed(s) && e !in s.entries
    ensures EmptyEntry(Slot(s, major, e), major) <==> major !in s.table || EmptyEntry(s, major)
    ensures forall x :: x != major ==> (EmptyEntry(Slot(s, major, e), x) <==> EmptyEntry(s, x))
  {
  }

  lemma RemovedEmpty(s: State, d: int)
    requires Good(s) && d in s.devs && s.devs[d].major in s.table && s.table[s.devs[d].major] in s.entries
    ensures forall x :: EmptyEntry(Removed(s, d), x) <==> EmptyEntry(s, x)
  {
    var major, minor := s.devs[d].major, s.devs[d].minor;
    EntryOf(s, major);
    var n := s.entries[s.table[major]];
    if minor in n.minors {
      MinorsShrink(n.minors, minor);
      assert n.num != 1 ==> n.minors - {minor} != map[];
      assert n.minors != map[];
    }
    forall x ensures EmptyEntry(Removed(s, d), x) <==> EmptyEntry(s, x) {
      if x in s.table { EntryOf(s, x); }
    }
  }

  // ---------- sections and released devices ----------

  /** A section is at a device of which registration `life` is meant. */
  ghost predicate Holds(s: State, r: int, d: int, life: nat) {
    r in s.calls && s.calls[r].Get? && HasRef(s.calls[r]) && s.calls[r].stage.ref.dev == d && s.calls[r].stage.ref.life == life
  }

  /** No slot has the device from that registration, which is past. */
  ghost predicate Gone(s: State, d: int, life: nat) {
    && d in s.devs && life <= s.devs[d].life
    && forall e, k :: e in s.entries && k in s.entries[e].minors ==> !(s.entries[e].minors[k].dev == d && s.entries[e].minors[k].life == life)
  }

  /** A device that was registered by number is gone from the table once it is taken out. */
  lemma OutIsGone(s: State, d: int)
    requires Good(s) && d in s.devs && !Present(s.devs[d])
    ensures Gone(s, d, s.devs[d].life)
  {
    forall e, k | e in s.entries && k in s.entries[e].minors
      ensures !(s.entries[e].minors[k].dev == d && s.entries[e].minors[k].life == s.devs[d].life)
    {
      assert RefOk(s.devs, s.entries[e].major, k, s.entries[e].minors[k]);
    }
  }

  lemma OwnedOf(s: State)
    requires Good(s)
    ensures Owned(s)
  {
  }

  lemma RemovedMinors(s: State, d: int, e: int, k: int)
    requires d in s.devs && s.devs[d].major in s.table && s.table[s.devs[d].major] in s.entries
    requires e in Removed(s, d).entries && k in Removed(s, d).entries[e].minors
    ensures e in s.entries && k in s.entries[e].minors && s.entries[e].minors[k] == Removed(s, d).entries[e].minors[k]
  {
  }

  lemma UnlinksMinors(s: State, d: int, e: int, v: Device, s': State, x: int, k: int)
    requires d in s.devs && Unlinks(s, d, e, v, s') && x in s'.entries && k in s'.entries[x].minors
    ensures x in s.entries && k in s.entries[x].minors && s.entries[x].minors[k] == s'.entries[x].minors[k]
  {
    RemovedMinors(Slot(s, s.devs[d].major, e), d, x, k);
    hide Removed;
  }

  /** What is in a slot was there before or has just been registered. */
  lemma WritesMinors(s: State, m: Move, s': State, e: int, k: int)
    requires Writes(s, m, s') && e in s'.entries && k in s'.entries[e].minors
    ensures (e in s.entries && k in s.entries[e].minors && s.entries[e].minors[k] == s'.entries[e].minors[k])
            || (m.Register? && m.d in s'.devs && s'.entries[e].minors[k].dev == m.d && s'.entries[e].minors[k].life == s'.devs[m.d].life
                && s'.entries[e].minors[k].auto == (m.minor == 0) && (m.d in s.devs ==> s'.devs[m.d].life == s.devs[m.d].life + 1))
  {
    hide Unlinks;
    if m.TakeOut? {
      UnlinksMinors(s, m.d, m.e, s.devs[m.d].(leaving := Out), s', e, k);
    } else if m.Sweep? {
      UnlinksMinors(s, m.d, m.e, s.devs[m.d].(swept := true), s', e, k);
    }
  }

  lemma ReadsSame(s: State, m: Move, s': State)
    requires Reads(s, m, s')
    ensures s'.table == s.table && s'.entries == s.entries
  {
  }

  lemma WritesSame(s: State, m: Move, s': State)
    requires Writes(s, m, s')
    ensures s'.calls == s.calls
  {
    hide Unlinks;
    if m.TakeOut? {
      UnlinksDevs(s, m.d, m.e, s.devs[m.d].(leaving := Out), s');
    } else if m.Sweep? {
      UnlinksDevs(s, m.d, m.e, s.devs[m.d].(swept := true), s');
    }
  }

  lemma GoneStep(s: State, m: Move, s': State, d: int, life: nat)
    requires Next(s, m, s') && Gone(s, d, life)
    ensures Gone(s', d, life)
  {
    LifeStep(s, m, s', d);
    hide Writes, Reads;
    if Reads(s, m, s') {
      ReadsSame(s, m, s');
    } else {
      forall e, k | e in s'.entries && k in s'.entries[e].minors ensures !(s'.entries[e].minors[k].dev == d && s'.entries[e].minors[k].life == life) {
        WritesMinors(s, m, s', e, k);
      }
    }
  }

  lemma HoldsStep(s: State, m: Move, s': State, r: int, d: int, life: nat)
    requires Next(s, m, s') && Gone(s, d, life) && Holds(s', r, d, life)
    ensures Holds(s, r, d, life)
  {
    if Writes(s, m, s') {
      WritesSame(s, m, s');
      hide Writes, Reads;
    } else {
      hide Writes;
      ReadsHolds(s, m, s', r, d, life);
      hide Reads;
    }
  }

  lemma ReadsHolds(s: State, m: Move, s': State, r: int, d: int, life: nat)
    requires Reads(s, m, s') && Gone(s, d, life) && Holds(s', r, d, life)
    ensures Holds(s, r, d, life)
  {
  }

  /** A section has a device that is gone from the table, whether released or not, exactly if it had it when the device left the
      table and has had it ever since. A release does not wait for such sections. */
  lemma {:induction false} HeldSince(states: seq<State>, moves: seq<Move>, i: nat, j: nat, r: int, d: int, life: nat)
    requires IsRun(states, moves) && i <= j < |states| && Gone(states[i], d, life)
    ensures Gone(states[j], d, life)
    ensures Holds(states[j], r, d, life) <==> forall n :: i <= n <= j ==> Holds(states[n], r, d, life)
    decreases j
  {
    hide Good, Next, Holds, Gone;
    if j > i {
      HeldSince(states, moves, i, j - 1, r, d, life);
      RunGood(states, moves, j - 1);
      var s, m, s' := states[j - 1], moves[j - 1], states[j];
      GoneStep(s, m, s', d, life);
      if Holds(s', r, d, life) { HoldsStep(s, m, s', r, d, life); }
    }
  }

  /** If all sections that were open when a device had left the table come to their end before its release, none has it then. */
  lemma GraceWouldDo(states: seq<State>, moves: seq<Move>, i: nat, n: nat, j: nat, r: int, d: int, life: nat)
    requires IsRun(states, moves) && i <= n <= j < |states| && Gone(states[i], d, life)
    requires forall x :: x in states[i].calls && states[i].calls[x].Get? ==> x !in states[n].calls
    ensures !Holds(states[j], r, d, life)
  {
    hide IsRun, Gone;
    HeldSince(states, moves, i, j, r, d, life);
    ghost var first, over, last := states[i], states[n], states[j];
    assert Holds(last, r, d, life) ==> Holds(first, r, d, life) && Holds(over, r, d, life);
  }

  // ---------- devices registered with minor number 0 ----------

  /** A slot leads to the device. */
  ghost predicate Found(s: State, d: int) {
    exists e, k :: e in s.entries && k in s.entries[e].minors && s.entries[e].minors[k].dev == d
  }

  ghost predicate AutoAt(s: State, e: int, k: int, d: int) {
    e in s.entries && k in s.entries[e].minors && s.entries[e].minors[k].auto && s.entries[e].minors[k].dev == d
  }

  /** What is taken out of a slot was registered by number. */
  lemma RemovedNotAuto(s: State, d: int, e: int, k: int, x: int)
    requires Good(s) && d in s.devs && s.devs[d].major in s.table && s.table[s.devs[d].major] in s.entries && AutoAt(s, e, k, x)
    ensures AutoAt(Removed(s, d), e, k, x)
  {
    var v := s.devs[d];
    EntryAt(s, v.major);
    var t := s.table[v.major];
    if v.minor != 0 && v.minor in s.entries[t].minors && s.entries[t].minors[v.minor].dev == d {
      assert RefOk(s.devs, s.entries[t].major, v.minor, s.entries[t].minors[v.minor]);
      assert DevOk(v);
    }
    hide Good;
  }

  lemma UnlinksNotAuto(s: State, d: int, e: int, v: Device, s': State, x: int, k: int, dev: int)
    requires Good(s) && d in s.devs && Unlinks(s, d, e, v, s') && AutoAt(s, x, k, dev)
    ensures AutoAt(s', x, k, dev)
  {
    SlotGood(s, s.devs[d].major, e);
    var t := Slot(s, s.devs[d].major, e);
    hide Good;
    RemovedNotAuto(t, d, x, k, dev);
    hide Removed;
  }

  lemma AutoStep(s: State, m: Move, s': State, e: int, k: int, d: int)
    requires Good(s) && Next(s, m, s') && AutoAt(s, e, k, d)
    ensures AutoAt(s', e, k, d)
  {
    hide Good, Unlinks;
    if Reads(s, m, s') {
      hide Writes;
      ReadsSame(s, m, s');
      hide Reads;
    } else if m.TakeOut? {
      UnlinksNotAuto(s, m.d, m.e, s.devs[m.d].(leaving := Out), s', e, k, d);
    } else if m.Sweep? {
      UnlinksNotAuto(s, m.d, m.e, s.devs[m.d].(swept := true), s', e, k, d);
    }
  }

  /** A slot got by asking for any is never emptied. */
  lemma {:induction false} AutoStays(states: seq<State>, moves: seq<Move>, i: nat, j: nat, e: int, k: int, d: int)
    requires IsRun(states, moves) && i <= j < |states| && AutoAt(states[i], e, k, d)
    ensures AutoAt(states[j], e, k, d)
    decreases j
  {
    hide Good, Next, AutoAt;
    if j > i {
      AutoStays(states, moves, i, j - 1, e, k, d);
      RunGood(states, moves, j - 1);
      AutoStep(states[j - 1], moves[j - 1], states[j], e, k, d);
    }
  }

  ghost predicate AsksAny(m: Move, d: int) {
    m.Register? && m.d == d && m.minor == 0
  }

  lemma AutoBack(s: State, m: Move, s': State, e: int, k: int, d: int)
    requires Next(s, m, s') && AutoAt(s', e, k, d)
    ensures AutoAt(s, e, k, d) || AsksAny(m, d)
  {
    if Reads(s, m, s') {
      hide Writes;
      ReadsSame(s, m, s');
    } else {
      hide Reads;
      WritesMinors(s, m, s', e, k);
      hide Writes;
    }
  }

  lemma {:induction false} AutoFrom(states: seq<State>, moves: seq<Move>, i: nat, e: int, k: int, d: int)
    requires IsRun(states, moves) && i < |states| && AutoAt(states[i], e, k, d)
    ensures exists j :: 0 <= j < i && AsksAny(moves[j], d)
  {
    hide Next;
    if i > 0 {
      AutoBack(states[i - 1], moves[i - 1], states[i], e, k, d);
      if AutoAt(states[i - 1], e, k, d) { AutoFrom(states, moves, i - 1, e, k, d); }
    }
  }

  lemma AskedFor(s: State, m: Move, s': State, d: int) returns (e: int, k: int)
    requires Next(s, m, s') && AsksAny(m, d)
    ensures AutoAt(s', e, k, d)
  {
    e, k := s'.table[m.major], m.at;
  }

  /** A released device is still found in the table, in whatever slot, exactly if it was once registered with minor number 0. */
  lemma ReleasedFound(states: seq<State>, moves: seq<Move>, i: nat, d: int)
    requires IsRun(states, moves) && i < |states| && d in states[i].devs && states[i].devs[d].obj.released > 0
    ensures Found(states[i], d) <==> exists j :: 0 <= j < i && AsksAny(moves[j], d)
  {
    RunGood(states, moves, i);
    if Found(states[i], d) {
      var e, k :| e in states[i].entries && k in states[i].entries[e].minors && states[i].entries[e].minors[k].dev == d;
      assert DevOk(states[i].devs[d]);
      OldRefs(states[i], e, k);
      AutoFrom(states, moves, i, e, k, d);
    }
    if exists j :: 0 <= j < i && AsksAny(moves[j], d) {
      var j :| 0 <= j < i && AsksAny(moves[j], d);
      assert Next(states[j], moves[j], states[j + 1]);
      hide Good, Next, AsksAny;
      var e, k := AskedFor(states[j], moves[j], states[j + 1], d);
      AutoStays(states, moves, j + 1, i, e, k, d);
    }
  }

  // ---------- what the flag does ----------

  /** The call has found the flag of the device clear. */
  ghost predicate PastTest(s: State, r: int, d: int) {
    r in s.calls && (s.calls[r].stage.Passed? || s.calls[r].stage.Trying? || s.calls[r].stage.Got?) && s.calls[r].stage.ref.dev == d
  }

  /** A flag that is set stays set until the device is registered again. */
  lemma MarkedStep(s: State, m: Move, s': State, d: int)
    requires Next(s, m, s') && d in s.devs && !s.devs[d].leaving.Staying?
    ensures d in s'.devs && (s'.devs[d].life == s.devs[d].life ==> !s'.devs[d].leaving.Staying?)
  {
    hide Unlinks;
    if Reads(s, m, s') {
      hide Writes;
    } else {
      hide Reads;
      if m.TakeOut? {
        UnlinksDevs(s, m.d, m.e, s.devs[m.d].(leaving := Out), s');
      } else if m.Sweep? {
        UnlinksDevs(s, m.d, m.e, s.devs[m.d].(swept := true), s');
      }
    }
  }

  /** No call gets past a flag that is set. */
  lemma PastStep(s: State, m: Move, s': State, r: int, d: int)
    requires Next(s, m, s') && d in s.devs && !s.devs[d].leaving.Staying? && !PastTest(s, r, d)
    ensures !PastTest(s', r, d)
  {
    if Writes(s, m, s') {
      WritesSame(s, m, s');
      hide Writes, Reads;
    } else {
      hide Writes;
    }
  }

  /** Once device_unregister has set the flag, no call of device_get or device_dup that has not tested it yet, whether it has
      begun or not, ever gets past the test, or to a reference, unless the device is registered again. */
  lemma {:induction false} FlagStops(states: seq<State>, moves: seq<Move>, i: nat, j: nat, r: int, d: int)
    requires IsRun(states, moves) && i <= j < |states| && d in states[i].devs && !states[i].devs[d].leaving.Staying? && !PastTest(states[i], r, d)
    ensures d in states[j].devs && states[i].devs[d].life <= states[j].devs[d].life
    ensures states[j].devs[d].life == states[i].devs[d].life ==> !states[j].devs[d].leaving.Staying? && !PastTest(states[j], r, d)
    decreases j
  {
    hide Next, PastTest;
    if j > i {
      FlagStops(states, moves, i, j - 1, r, d);
      var s, m, s' := states[j - 1], moves[j - 1], states[j];
      LifeStep(s, m, s', d);
      if s.devs[d].life == states[i].devs[d].life {
        MarkedStep(s, m, s', d);
        PastStep(s, m, s', r, d);
      }
    }
  }

  /** The device registered as (major, minor), or given that minor number, which no one is taking out and which has references. */
  ghost predicate Stands(s: State, d: int, major: int, minor: int) {
    d in s.devs && s.devs[d].major == major && s.devs[d].at == minor && s.devs[d].leaving.Staying? && s.devs[d].obj.count > 0
  }

  /** A call of device_get for a device that stands is on its way to it. */
  ghost predicate OnItsWay(s: State, r: int, d: int) {
    r in s.calls && s.calls[r].Get? && var c := s.calls[r];
    match c.stage
    case Begun => true
    case AtEntry(e) => c.major in s.table && e == s.table[c.major]
    case AtDevice(ref) => ref.dev == d
    case Passed(ref) => ref.dev == d
    case Trying(ref, seen) => ref.dev == d && seen > 0
    case Got(ref) => ref.dev == d
    case Failed => false
  }

  /** A device that stands is in its slot. */
  lemma StandsInSlot(s: State, d: int, major: int, minor: int)
    requires Good(s) && Stands(s, d, major, minor)
    ensures major in s.table && s.table[major] in s.entries
    ensures minor in s.entries[s.table[major]].minors && s.entries[s.table[major]].minors[minor].dev == d
  {
    assert DevOk(s.devs[d]);
    assert InSlot(s, d) <==> Present(s.devs[d]);
  }

  /** The entry of a major number is not exchanged for another in one step. */
  lemma SameEntry(s: State, m: Move, s': State, major: int)
    requires Next(s, m, s') && major in s.table && major in s'.table
    ensures s'.table[major] == s.table[major]
  {
    hide Unlinks;
    if Reads(s, m, s') {
      ReadsSame(s, m, s');
      hide Writes, Reads;
    } else if m.TakeOut? {
      UnlinksEntry(s, m.d, m.e, s.devs[m.d].(leaving := Out), s', major);
    } else if m.Sweep? {
      UnlinksEntry(s, m.d, m.e, s.devs[m.d].(swept := true), s', major);
    }
  }

  lemma UnlinksEntry(s: State, d: int, e: int, v: Device, s': State, major: int)
    requires d in s.devs && Unlinks(s, d, e, v, s') && major in s.table && major in s'.table
    ensures s'.table[major] == s.table[major]
  {
  }

  lemma WayStep(s: State, m: Move, s': State, r: int, d: int)
    requires Good(s) && Good(s') && Next(s, m, s') && OnItsWay(s, r, d)
    requires Stands(s, d, s.calls[r].major, s.calls[r].minor) && Stands(s', d, s.calls[r].major, s.calls[r].minor)
    ensures r in s'.calls ==> OnItsWay(s', r, d) && s'.calls[r].major == s.calls[r].major && s'.calls[r].minor == s.calls[r].minor
  {
    var c := s.calls[r];
    StandsInSlot(s, d, c.major, c.minor);
    StandsInSlot(s', d, c.major, c.minor);
    SameEntry(s, m, s', c.major);
    NotNext(s, r);
    hide Good, Next, Writes, Reads;
    if Writes(s, m, s') {
      WritesSame(s, m, s');
    } else {
      assert Reads(s, m, s') by { EitherWay(s, m, s'); }
      ReadsSame(s, m, s');
      ReadsWay(s, m, s', r, d);
    }
  }

  lemma EitherWay(s: State, m: Move, s': State)
    requires Next(s, m, s')
    ensures Writes(s, m, s') || Reads(s, m, s')
  {
    hide Writes, Reads;
  }

  lemma NotNext(s: State, r: int)
    requires Good(s) && r in s.calls
    ensures r < s.next
  {
  }

  lemma ReadsWay(s: State, m: Move, s': State, r: int, d: int)
    requires Reads(s, m, s') && OnItsWay(s, r, d) && r < s.next && Stands(s, d, s.calls[r].major, s.calls[r].minor)
    requires var c := s.calls[r];
             && c.major in s.table && s.table[c.major] in s.entries && c.minor in s.entries[s.table[c.major]].minors
             && s.entries[s.table[c.major]].minors[c.minor].dev == d
    ensures r in s'.calls ==> OnItsWay(s', r, d) && s'.calls[r].major == s.calls[r].major && s'.calls[r].minor == s.calls[r].minor
  {
  }

  /** device_get does not fail while the device it is for stands: from any point of the call at which it is on its way, in
      particular from its beginning, for as long as the flag is clear and the count is above 0. */
  lemma {:induction false} GetNotRefused(states: seq<State>, moves: seq<Move>, i: nat, j: nat, r: int, d: int)
    requires IsRun(states, moves) && i <= j < |states| && OnItsWay(states[i], r, d)
    requires forall n :: i <= n <= j ==> Stands(states[n], d, states[i].calls[r].major, states[i].calls[r].minor)
    requires forall n :: i <= n <= j ==> r in states[n].calls
    ensures OnItsWay(states[j], r, d) && states[j].calls[r].major == states[i].calls[r].major && states[j].calls[r].minor == states[i].calls[r].minor
    decreases j
  {
    hide Good, Next, OnItsWay, Stands;
    if j > i {
      GetNotRefused(states, moves, i, j - 1, r, d);
      RunGood(states, moves, j - 1);
      RunGood(states, moves, j);
      WayStep(states[j - 1], moves[j - 1], states[j], r, d);
    }
  }

  /** What a registration does: the slot was empty and has the device now, with the number asked for, or, asked for any, with the
      lowest free one; no other slot changes. */
  lemma RegisterTakes(s: State, d: int, major: int, minor: int, at: int, e: int, s': State)
    requires Good(s) && Next(s, Register(d, major, minor, at, e), s')
    ensures Stands(s', d, major, at) && s'.devs[d].obj.holders == {REG} && s'.devs[d].minor == minor && (minor != 0 ==> at == minor)
    ensures major in s'.table && s'.table[major] in s'.entries
    ensures s'.entries[s'.table[major]].minors == (if major in s.table && s.table[major] in s.entries then s.entries[s.table[major]].minors else map[])
              [at := Ref(d, s'.devs[d].life, minor == 0)]
    ensures major in s.table && s.table[major] in s.entries ==>
      at !in s.entries[s.table[major]].minors && (minor == 0 ==> forall k :: 0 < k < at ==> k in s.entries[s.table[major]].minors)
    ensures (major !in s.table && minor == 0 ==> at == 1) && s'.devs.Keys == s.devs.Keys + {d} && forall x :: x in s.devs && x != d ==> s'.devs[x] == s.devs[x]
  {
    hide Good;
    var t := Slot(s, major, e);
    assert minor == 0 && 1 < at ==> 1 in t.entries[t.table[major]].minors;
  }

  /** A call of device_dup fails at the test of the flag and nowhere else, and only if the flag is set. */
  lemma DupOnlyFlag(s: State, m: Move, s': State, r: int)
    requires Good(s) && Next(s, m, s') && r in s.calls && s.calls[r].Dup? && HasRef(s.calls[r]) && r in s'.calls && s'.calls[r].stage.Failed?
    ensures m == Test(r) && s.calls[r].stage.ref.dev in s.devs && !s.devs[s.calls[r].stage.ref.dev].leaving.Staying?
  {
    assert CallOk(s.devs, s.calls[r]) && r < s.next;
    hide Good;
    if Writes(s, m, s') {
      WritesSame(s, m, s');
      hide Writes, Reads;
    } else {
      hide Writes;
    }
  }
}
