/** Runs of the device table in which something comes out that one would not expect. */
module DevRuns {
  import K = Kobject
  import opened DevTable

  ghost predicate Steps(states: seq<State>, moves: seq<Move>) {
    |states| == |moves| + 1 && forall i :: 0 <= i < |moves| ==> Next(states[i], moves[i], states[i + 1])
  }

  /** Some steps lead from one state to the other. */
  ghost predicate Reaches(s: State, t: State) {
    exists states, moves :: Steps(states, moves) && states[0] == s && states[|moves|] == t
  }

  lemma Here(s: State)
    ensures Reaches(s, s)
  {
    assert Steps([s], []);
  }

  /** One step more. */
  lemma Then(s: State, t: State, m: Move, u: State)
    requires Reaches(s, t) && Next(t, m, u)
    ensures Reaches(s, u)
  {
    hide Next;
    var states, moves :| Steps(states, moves) && states[0] == s && states[|moves|] == t;
    var all, ms := states + [u], moves + [m];
    forall i | 0 <= i < |ms| ensures Next(all[i], ms[i], all[i + 1]) { }
    assert Steps(all, ms);
  }

  lemma {:induction false} Join(s: State, t: State, states: seq<State>, moves: seq<Move>, i: nat)
    requires Reaches(s, t) && Steps(states, moves) && states[0] == t && i < |states|
    ensures Reaches(s, states[i])
  {
    hide Next, Reaches;
    if i > 0 {
      Join(s, t, states, moves, i - 1);
      Then(s, states[i - 1], moves[i - 1], states[i]);
    }
  }

  lemma Further(s: State, t: State, u: State)
    requires Reaches(s, t) && Reaches(t, u)
    ensures Reaches(s, u)
  {
    var states, moves :| Steps(states, moves) && states[0] == t && states[|moves|] == u;
    hide Reaches, Steps;
    assert |states| == |moves| + 1 by { StepsLength(states, moves); }
    Join(s, t, states, moves, |moves|);
  }

  lemma StepsLength(states: seq<State>, moves: seq<Move>)
    requires Steps(states, moves)
    ensures |states| == |moves| + 1
  {
  }

  /** Nobody but the table has the device, and no one is about to take it out. */
  ghost predicate Idle(s: State, d: int) {
    d in s.devs && s.devs[d].leaving.Staying? && s.devs[d].obj.holders == {REG} && Unused(s, d, REG)
  }

  /** A device that has been unregistered and released. */
  function Over(v: Device): Device {
    v.(obj := K.Object(0, {}, false, false, 1), leaving := Left, swept := true)
  }

  /** The lock section of device_unregister. */
  lemma Leave(s: State, d: int, e: int) returns (s': State)
    requires Good(s) && d in s.devs && s.devs[d].leaving.Marked? && !s.devs[d].swept && e !in s.entries
    ensures Next(s, TakeOut(d, e), s') && s'.devs == s.devs[d := s.devs[d].(leaving := Out)] && s'.calls == s.calls && s'.live == s.live
    ensures s'.entries.Keys == s.entries.Keys && s'.waiting == s.waiting && s'.next == s.next && s'.table.Keys <= s.table.Keys
    ensures var major := s.devs[d].major;
            && major in s.table && s.table[major] in s.entries
            && (major !in s'.table <==> s.devs[d].minor != 0 && s.entries[s.table[major]].minors.Keys == {s.devs[d].minor})
            && (major !in s'.table ==> s.table[major] in s'.unlinked)
            && (major in s'.table ==> s'.table == s.table && s'.entries[s.table[major]].minors != map[])
  {
    var v := s.devs[d];
    assert InSlot(s, d) && DevOk(v);
    EntryOf(s, v.major);
    var n := s.entries[s.table[v.major]];
    assert n.minors.Keys == {v.minor} <==> v.minor in n.minors && n.num == 1 by { Single(n.minors, v.minor); }
    if v.minor in n.minors { MinorsShrink(n.minors, v.minor); }
    hide Good;
    s' := SetDev(Removed(s, d), d, v.(leaving := Out));
    assert Writes(s, TakeOut(d, e), s');
  }

  lemma Single(minors: map<int, Ref>, k: int)
    ensures minors.Keys == {k} <==> k in minors && |minors| == 1
  {
    assert |minors| == |minors.Keys|;
    if k in minors && |minors| == 1 {
      MinorsShrink(minors, k);
      assert minors - {k} == map[];
      assert minors.Keys == (minors - {k}).Keys + {k};
    }
  }

  /** The last reference is given back and the object taken off the list. */
  lemma PutLast(s: State, d: int) returns (t: State, s': State)
    requires d in s.devs && s.devs[d].leaving.Out? && s.devs[d].obj == K.Fresh(REG) && Unused(s, d, REG)
    ensures Next(s, PutOwn(d), t) && Next(t, Detach(d), s')
    ensures s' == s.(devs := s.devs[d := s.devs[d].(obj := K.Object(0, {}, false, true, 0), leaving := Left)], live := s.live - 1)
  {
    var v := s.devs[d];
    assert K.Minus(v.obj, REG) == K.Object(0, {}, true, true, 0);
    t := SetDev(s, d, v.(obj := K.Minus(v.obj, REG), leaving := Left));
    s' := SetDev(t, d, v.(obj := K.Object(0, {}, false, true, 0), leaving := Left)).(live := t.live - 1);
    assert Writes(s, PutOwn(d), t);
    assert Writes(t, Detach(d), s');
  }

  /** The release: through the table a second time, then the callback. */
  lemma ReleaseIt(s: State, d: int, e: int) returns (t: State, s': State)
    requires Good(s) && d in s.devs && s.devs[d].obj == K.Object(0, {}, false, true, 0) && s.devs[d].leaving.Left? && !s.devs[d].swept && e !in s.entries
    ensures Next(s, Sweep(d, e), t) && Next(t, Release(d), s')
    ensures s'.devs == s.devs[d := Over(s.devs[d])] && s'.calls == s.calls && s'.next == s.next
    ensures s'.table == t.table && s'.entries == t.entries && s'.waiting == s.waiting && s.entries.Keys <= s'.entries.Keys <= s.entries.Keys + {e}
    ensures s.devs[d].major in s'.table && s'.table[s.devs[d].major] in s'.entries && s'.table.Keys <= s.table.Keys + {s.devs[d].major}
    ensures EmptyEntry(s', s.devs[d].major) <==> s.devs[d].major !in s.table || EmptyEntry(s, s.devs[d].major)
    ensures s.devs[d].major in s.table ==> s'.table == s.table && s'.entries == s.entries
  {
    var v := s.devs[d];
    SlotGood(s, v.major, e);
    var u := Slot(s, v.major, e);
    assert Removed(u, d) == u by {
      EntryOf(u, v.major);
      assert !Present(v) || v.minor == 0;
      assert InSlot(u, d) <==> Present(v);
      NotThere(u, d);
    }
    hide Good, Removed, EmptyEntry;
    t := SetDev(u, d, v.(swept := true));
    s' := SetDev(t, d, Over(v));
    assert Writes(s, Sweep(d, e), t);
    assert Writes(t, Release(d), s');
    LeavesEmpty(s, Sweep(d, e), t);
  }

  /** A device that is out of the table is not in the slot its numbers lead to. */
  lemma NotThere(s: State, d: int)
    requires Good(s) && d in s.devs && s.devs[d].major in s.table && s.table[s.devs[d].major] in s.entries && (s.devs[d].minor == 0 || !Present(s.devs[d]))
    ensures Removed(s, d) == s
  {
    var v := s.devs[d];
    EntryOf(s, v.major);
    var e := s.table[v.major];
    if v.minor in s.entries[e].minors {
      assert RefOk(s.devs, s.entries[e].major, v.minor, s.entries[e].minors[v.minor]);
      assert DevOk(v);
      assert InSlot(s, d) <==> Present(v);
    }
    hide Good;
  }

  lemma IdleMark(s: State, d: int) returns (s': State)
    requires Good(s) && Idle(s, d)
    ensures Next(s, Mark(d), s') && s' == SetDev(s, d, s.devs[d].(leaving := Marked))
    ensures s.devs[d].obj == K.Fresh(REG) && !s.devs[d].swept && InSlot(s, d)
  {
    assert DevOk(s.devs[d]);
    assert InSlot(s, d) <==> Present(s.devs[d]);
    hide Good;
    s' := SetDev(s, d, s.devs[d].(leaving := Marked));
    assert Writes(s, Mark(d), s');
  }

  /** Up to where device_unregister has taken the device out of the table. */
  lemma LeaveAll(s: State, d: int, e: int) returns (t: State)
    requires Good(s) && Idle(s, d) && e !in s.entries
    ensures Reaches(s, t) && Good(t) && s.devs[d].obj == K.Fresh(REG) && !s.devs[d].swept
    ensures t.devs == s.devs[d := s.devs[d].(leaving := Out)] && t.calls == s.calls && t.next == s.next && t.entries.Keys == s.entries.Keys && t.table.Keys <= s.table.Keys
    ensures var v := s.devs[d];
            && v.major in s.table && s.table[v.major] in s.entries
            && (v.major !in t.table <==> v.minor != 0 && s.entries[s.table[v.major]].minors.Keys == {v.minor}) && !EmptyEntry(t, v.major)
            && (v.major in t.table ==> t.table == s.table)
  {
    hide Good, Next, Reaches;
    var major := s.devs[d].major;
    var s1 := IdleMark(s, d);
    NextGood(s, Mark(d), s1);
    var s2 := Leave(s1, d, e);
    NextGood(s1, TakeOut(d, e), s2);
    Here(s);
    Then(s, s, Mark(d), s1);
    Then(s, s1, TakeOut(d, e), s2);
    t := s2;
    if major !in s2.table {
      t := CallIt(s2, s.table[major]);
      NextGood(s2, CallRcu(s.table[major]), t);
      Then(s, s2, CallRcu(s.table[major]), t);
    }
  }

  /** device_unregister of a device nobody has a reference to, from any state: it is released at once, though sections may be
      at it, and its going through the table twice leaves an entry with no devices in the table exactly if it was the only
      device under its major number. */
  lemma FullUnregister(s: State, d: int, e: int) returns (t: State)
    requires Good(s) && Idle(s, d) && e !in s.entries
    ensures Reaches(s, t) && Good(t)
    ensures t.devs == s.devs[d := Over(s.devs[d])] && t.calls == s.calls && t.next == s.next && t.entries.Keys <= s.entries.Keys + {e}
    ensures t.table.Keys <= s.table.Keys + {s.devs[d].major}
    ensures var v := s.devs[d];
            && v.major in s.table && s.table[v.major] in s.entries
            && (EmptyEntry(t, v.major) <==> v.minor != 0 && s.entries[s.table[v.major]].minors.Keys == {v.minor})
            && (v.minor == 0 ==> InSlot(t, d))
  {
    hide Good, Next, Reaches, EmptyEntry, InSlot;
    var s3 := LeaveAll(s, d, e);
    var s4, s5 := PutLast(s3, d);
    NextGood(s3, PutOwn(d), s4);
    NextGood(s4, Detach(d), s5);
    Then(s, s3, PutOwn(d), s4);
    Then(s, s4, Detach(d), s5);
    assert EmptyEntry(s5, s.devs[d].major) == EmptyEntry(s3, s.devs[d].major) by { SameTable(s3, s5); }
    var s6;
    s6, t := ReleaseIt(s5, d, e);
    NextGood(s5, Sweep(d, e), s6);
    NextGood(s6, Release(d), t);
    Then(s, s5, Sweep(d, e), s6);
    Then(s, s6, Release(d), t);
    assert t.devs == s.devs[d := Over(s.devs[d])];
    if s.devs[d].minor == 0 { StillThere(t, d); }
  }

  lemma StillThere(s: State, d: int)
    requires Good(s) && d in s.devs && s.devs[d].minor == 0
    ensures InSlot(s, d)
  {
    assert InSlot(s, d) <==> Present(s.devs[d]);
  }

  lemma CallIt(s: State, e: int) returns (s': State)
    requires e in s.unlinked
    ensures Next(s, CallRcu(e), s') && s' == s.(unlinked := s.unlinked - {e}, waiting := s.waiting[e := Sections(s)])
  {
    s' := s.(unlinked := s.unlinked - {e}, waiting := s.waiting[e := Sections(s)]);
    assert Writes(s, CallRcu(e), s');
  }

  // ---------- runs from the start ----------

  /** A section finds what is in a slot. */
  lemma LookUp(s: State, major: int, minor: int) returns (t: State)
    requires Good(s) && 0 < major < MAX_MAJOR && 0 < minor < MAX_MINOR
    requires major in s.table && s.table[major] in s.entries && minor in s.entries[s.table[major]].minors
    ensures Reaches(s, t) && Good(t) && t.next == s.next + 1
    ensures t == s.(calls := s.calls[s.next := Get(major, minor, {s.table[major]}, AtDevice(s.entries[s.table[major]].minors[minor]))], next := s.next + 1)
  {
    hide Good, Reaches;
    var e := s.table[major];
    var s1 := s.(calls := s.calls[s.next := Get(major, minor, {}, Begun)], next := s.next + 1);
    var s2 := s.(calls := s.calls[s.next := Get(major, minor, {e}, AtEntry(e))], next := s.next + 1);
    t := s.(calls := s.calls[s.next := Get(major, minor, {e}, AtDevice(s.entries[e].minors[minor]))], next := s.next + 1);
    assert Reads(s, BeginGet(major, minor), s1);
    assert Reads(s1, ReadMajor(s.next), s2) by { assert {} + {e} == {e}; }
    assert Reads(s2, ReadSlot(s.next), t);
    NextGood(s, BeginGet(major, minor), s1);
    NextGood(s1, ReadMajor(s.next), s2);
    NextGood(s2, ReadSlot(s.next), t);
    Here(s);
    Then(s, s, BeginGet(major, minor), s1);
    Then(s, s1, ReadMajor(s.next), s2);
    Then(s, s2, ReadSlot(s.next), t);
  }

  /** The first device is registered, as device 1 of major number 1. */
  lemma FirstDevice(minor: int) returns (s: State)
    requires minor == 0 || minor == 1
    ensures Reaches(START, s) && Good(s) && s.next == 0 && s.calls == map[] && s.entries.Keys == {0}
    ensures s.devs == map[1 := Device(1, minor, 1, 0, K.Fresh(REG), Staying, false, false)] && Idle(s, 1)
    ensures s.table == map[1 := 0] && s.entries[0].minors == map[1 := Ref(1, 0, minor == 0)]
  {
    s := Added(Slot(START, 1, 0), 1, 1, minor, 1);
    assert Writes(START, Register(1, 1, minor, 1, 0), s);
    StartGood();
    hide Good, Reaches;
    NextGood(START, Register(1, 1, minor, 1, 0), s);
    Here(START);
    Then(START, START, Register(1, 1, minor, 1, 0), s);
  }

  /** A section can have a pointer to a device that has been released, since a release waits for no section; the only device of
      its major number, it leaves an entry with no devices behind. */
  lemma HeldAfterRelease() returns (s: State)
    ensures Reaches(START, s) && 1 in s.devs && s.devs[1].life == 0 && s.devs[1].minor == 1 && s.devs[1].obj.released == 1
    ensures Holds(s, 0, 1, 0) && EmptyEntry(s, 1)
  {
    hide Good, Reaches;
    var s1 := FirstDevice(1);
    var s2 := LookUp(s1, 1, 1);
    assert s1.entries[s1.table[1]].minors.Keys == {1};
    s := FullUnregister(s2, 1, 1);
    Further(START, s1, s2);
    Further(START, s2, s);
  }

  /** Registered with minor number 0, a device is found by new sections after its release. */
  lemma FoundAfterRelease() returns (s: State, t: State)
    ensures Reaches(START, s) && 1 in s.devs && s.devs[1].life == 0 && s.devs[1].obj.released == 1 && s.calls == map[]
    ensures Reaches(s, t) && t.devs == s.devs && Holds(t, 0, 1, 0)
  {
    hide Good, Reaches;
    var s1 := FirstDevice(0);
    s := FullUnregister(s1, 1, 1);
    Further(START, s1, s);
    t := LookUp(s, 1, 1);
  }

  /** device_get of one device can return another: the same memory, registered again under other numbers in the meantime. */
  lemma OtherDevice() returns (s: State)
    ensures Reaches(START, s) && 0 in s.calls && s.calls[0].Get? && s.calls[0].major == 1 && s.calls[0].stage == Got(Ref(1, 0, false))
    ensures 1 in s.devs && s.devs[1].major == 2 && s.devs[1].life == 1
  {
    hide Good, Reaches;
    var s1 := FirstDevice(1);
    var s2 := LookUp(s1, 1, 1);
    var s3 := FullUnregister(s2, 1, 1);
    Further(START, s1, s2);
    Further(START, s2, s3);
    var s4 := Again(s3);
    Then(START, s3, Register(1, 2, 1, 1, 2), s4);
    s := TryGet(s4, 0, 5);
    Further(START, s4, s);
  }

  lemma Again(s: State) returns (s': State)
    requires Good(s) && 1 in s.devs && s.devs[1].obj.released == 1 && 2 !in s.entries && 2 !in s.table
    ensures Next(s, Register(1, 2, 1, 1, 2), s') && Good(s') && s'.calls == s.calls && s'.next == s.next
    ensures s'.devs == s.devs[1 := Device(2, 1, 1, s.devs[1].life + 1, K.Fresh(REG), Staying, false, false)]
  {
    s' := Added(Slot(s, 2, 2), 1, 2, 1, 1);
    assert Writes(s, Register(1, 2, 1, 1, 2), s');
    hide Good;
    NextGood(s, Register(1, 2, 1, 1, 2), s');
  }

  /** A call that is at a device nobody is taking out gets its reference if no one interferes. */
  lemma TryGet(s: State, r: int, k: int) returns (t: State)
    requires Good(s) && r in s.calls && s.calls[r].stage.AtDevice? && s.calls[r].stage.ref.dev in s.devs
    requires var v := s.devs[s.calls[r].stage.ref.dev]; v.leaving.Staying? && v.obj.count != 0 && k !in v.obj.holders + {REG}
    ensures Reaches(s, t) && r in t.calls && t.calls[r] == s.calls[r].(stage := Got(s.calls[r].stage.ref))
    ensures t.devs == s.devs[s.calls[r].stage.ref.dev := s.devs[s.calls[r].stage.ref.dev].(obj := K.Plus(s.devs[s.calls[r].stage.ref.dev].obj, k))]
  {
    hide Good, Reaches;
    var ref := s.calls[r].stage.ref;
    var v := s.devs[ref.dev];
    var s1 := SetStage(s, r, Passed(ref));
    var s2 := SetStage(s1, r, Trying(ref, v.obj.count));
    t := SetDev(SetStage(s2, r, Got(ref)), ref.dev, v.(obj := K.Plus(v.obj, k)));
    assert Reads(s, Test(r), s1);
    assert Reads(s1, Load(r), s2);
    assert Reads(s2, Swap(r, k), t);
    Here(s);
    Then(s, s, Test(r), s1);
    Then(s, s1, Load(r), s2);
    Then(s, s2, Swap(r, k), t);
  }
}
