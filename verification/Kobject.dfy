/** Reference counts of kernel objects (kernel/kobject.c), as devices use them (kernel/dev/dev.c): threads take references
    with a compare-and-swap loop, give them back, and the one that gives back the last releases the object. */
module Kobject {

  /** An object: its count, the references given out, whether it is on the list of live objects, whether the thread that
      gave back the last reference is still at work on it, and how often it has been released. */
  datatype Object = Object(count: int, holders: set<int>, listed: bool, ending: bool, released: nat)

  /** A thread in the loop of kobject_try_get, with the count it last read. */
  datatype Try = Try(obj: int, seen: int)

  datatype State = State(objs: map<int, Object>, live: int, tries: map<int, Try>)

  datatype Move = Init(o: int, k: int) | Load(t: int, obj: int) | Refuse(t: int) | Swap(t: int, k: int) | Get(obj: int, via: int, k: int)
                | Put(obj: int, k: int) | Detach(obj: int) | Release(obj: int)

  /** kobject_init */
  function Fresh(k: int): Object {
    Object(1, {k}, true, false, 0)
  }

  /** One more reference, `k`: kobject_get, and the swap of kobject_try_get */
  function Plus(b: Object, k: int): Object {
    b.(count := b.count + 1, holders := b.holders + {k})
  }

  /** One reference less: kobject_put. Whoever brings the count to 0 ends the object. */
  function Minus(b: Object, k: int): Object {
    b.(count := b.count - 1, holders := b.holders - {k}, ending := b.count == 1)
  }

  function Detached(b: Object): Object {
    b.(listed := false)
  }

  function Released(b: Object): Object {
    b.(ending := false, released := b.released + 1)
  }

  /** One atomic step. References are balanced: a thread gives back only a reference it was given, and calls kobject_get,
      which does not look at the count, only for an object it has a reference `via` to. */
  ghost predicate Next(s: State, m: Move, s': State) {
    match m
    case Init(o, k) => o !in s.objs && s' == s.(objs := s.objs[o := Fresh(k)], live := s.live + 1)
    case Load(t, o) => o in s.objs && t !in s.tries && s' == s.(tries := s.tries[t := Try(o, s.objs[o].count)])
    case Refuse(t) => t in s.tries && s.tries[t].seen == 0 && s' == s.(tries := s.tries - {t})
    case Swap(t, k) =>
      && t in s.tries && s.tries[t].seen != 0 && s.tries[t].obj in s.objs
      && var o := s.tries[t].obj;
         if s.objs[o].count == s.tries[t].seen then k !in s.objs[o].holders && s' == s.(objs := s.objs[o := Plus(s.objs[o], k)], tries := s.tries - {t})
         else s' == s.(tries := s.tries[t := Try(o, s.objs[o].count)])
    case Get(o, via, k) => o in s.objs && via in s.objs[o].holders && k !in s.objs[o].holders && s' == s.(objs := s.objs[o := Plus(s.objs[o], k)])
    case Put(o, k) => o in s.objs && k in s.objs[o].holders && s' == s.(objs := s.objs[o := Minus(s.objs[o], k)])
    case Detach(o) => o in s.objs && s.objs[o].ending && s.objs[o].listed && s' == s.(objs := s.objs[o := Detached(s.objs[o])], live := s.live - 1)
    case Release(o) => o in s.objs && s.objs[o].ending && !s.objs[o].listed && s' == s.(objs := s.objs[o := Released(s.objs[o])])
  }

  ghost function Listed(objs: map<int, Object>): set<int> {
    set o | o in objs && objs[o].listed
  }

  /** The count is the number of references given out; an object without any is being ended or has been released, once. */
  ghost predicate Sound(b: Object) {
    && b.count == |b.holders|
    && (b.count > 0 ==> b.listed && !b.ending && b.released == 0)
    && (b.count == 0 ==> if b.ending then b.released == 0 else b.released == 1 && !b.listed)
  }

  ghost predicate Good(s: State) {
    && (forall o :: o in s.objs ==> Sound(s.objs[o]))
    && s.live == |Listed(s.objs)|
    && (forall t :: t in s.tries ==> s.tries[t].obj in s.objs)
  }

  lemma ListedPut(objs: map<int, Object>, o: int, b: Object)
    ensures Listed(objs[o := b]) == Listed(objs) - {o} + if b.listed then {o} else {}
  {
    var l, r := Listed(objs[o := b]), Listed(objs) - {o} + if b.listed then {o} else {};
    forall x ensures x in l <==> x in r { }
  }

  lemma ListedCount(objs: map<int, Object>, o: int, b: Object)
    ensures |Listed(objs[o := b])| == |Listed(objs)| + (if b.listed then 1 else 0) - if o in objs && objs[o].listed then 1 else 0
  {
    ListedPut(objs, o, b);
    assert o in Listed(objs) <==> o in objs && objs[o].listed;
    hide Listed;
    var all := Listed(objs);
    assert |all - {o}| == |all| - if o in all then 1 else 0;
    assert o !in all - {o};
  }

  /** Giving back a reference takes the count down by one, never below 0. */
  lemma PutSound(b: Object, k: int)
    requires Sound(b) && k in b.holders
    ensures b.count >= 1 && Sound(Minus(b, k))
  {
    assert b.holders == b.holders - {k} + {k};
  }

  /** A reference may be added exactly if the count is not 0: kobject_get, which does not test it, brings a dead object back
      to life, to be released a second time, if it is called without a reference. */
  lemma PlusSound(b: Object, k: int)
    requires Sound(b) && k !in b.holders
    ensures Sound(Plus(b, k)) <==> b.count != 0
    ensures b.count == 0 && b.released == 1 ==> Released(Detached(Minus(Plus(b, k), k))).released == 2
  {
    if b.count == 0 { assert Plus(b, k).count == 1 && (b.ending || b.released == 1); }
  }

  /** One object changes, soundly. */
  lemma ObjectGood(s: State, s': State, o: int, b: Object)
    requires Good(s) && Sound(b) && s'.objs == s.objs[o := b] && s'.tries.Items <= s.tries.Items
    requires s'.live == s.live + (if b.listed then 1 else 0) - if o in s.objs && s.objs[o].listed then 1 else 0
    ensures Good(s')
  {
    ListedCount(s.objs, o, b);
    hide Listed, Sound;
    forall t | t in s'.tries ensures s'.tries[t].obj in s'.objs { assert (t, s'.tries[t]) in s'.tries.Items; }
  }

  lemma NextGood(s: State, m: Move, s': State)
    requires Good(s) && Next(s, m, s')
    ensures Good(s')
  {
    hide Listed;
    match m {
      case Init(o, k) => ObjectGood(s, s', o, Fresh(k));
      case Load(t, o) =>
      case Refuse(t) =>
      case Swap(t, k) =>
        var o := s.tries[t].obj;
        if s.objs[o].count == s.tries[t].seen {
          PlusSound(s.objs[o], k);
          ObjectGood(s, s', o, s'.objs[o]);
        }
      case Get(o, via, k) =>
        PlusSound(s.objs[o], k);
        ObjectGood(s, s', o, s'.objs[o]);
      case Put(o, k) =>
        PutSound(s.objs[o], k);
        ObjectGood(s, s', o, s'.objs[o]);
      case Detach(o) => ObjectGood(s, s', o, s'.objs[o]);
      case Release(o) => ObjectGood(s, s', o, s'.objs[o]);
    }
  }

  ghost predicate IsRun(states: seq<State>, moves: seq<Move>) {
    && |states| == |moves| + 1 && states[0] == State(map[], 0, map[])
    && forall i :: 0 <= i < |moves| ==> Next(states[i], moves[i], states[i + 1])
  }

  lemma {:induction false} RunGood(states: seq<State>, moves: seq<Move>, i: nat)
    requires IsRun(states, moves) && i < |states|
    ensures Good(states[i])
  {
    hide Good, Next;
    if i == 0 {
      Start(states[0]);
    } else {
      RunGood(states, moves, i - 1);
      NextGood(states[i - 1], moves[i - 1], states[i]);
    }
  }

  lemma Start(s: State)
    requires s == State(map[], 0, map[])
    ensures Good(s)
  {
    assert Listed(s.objs) == {};
  }

  /** In every interleaving an object is released at most once, and only when no reference to it is out. */
  lemma ReleasedOnce(states: seq<State>, moves: seq<Move>, i: nat, o: int)
    requires IsRun(states, moves) && i < |states| && o in states[i].objs
    ensures states[i].objs[o].released <= 1
    ensures states[i].objs[o].released == 1 ==> states[i].objs[o].holders == {} && states[i].objs[o].count == 0
    ensures states[i].objs[o].holders == {} ==> states[i].objs[o].ending || states[i].objs[o].released == 1
  {
    hide IsRun;
    RunGood(states, moves, i);
    assert Sound(states[i].objs[o]);
  }

  /** Once the count has come to 0 no reference is ever given out again. */
  lemma {:induction false} StaysDead(states: seq<State>, moves: seq<Move>, i: nat, j: nat, o: int)
    requires IsRun(states, moves) && i <= j < |states| && o in states[i].objs && states[i].objs[o].count == 0
    ensures o in states[j].objs && states[j].objs[o].count == 0
    decreases j
  {
    hide Good, Next, Sound;
    if j > i {
      StaysDead(states, moves, i, j - 1, o);
      RunGood(states, moves, j - 1);
      SoundOf(states[j - 1], o);
      DeadStep(states[j - 1], moves[j - 1], states[j], o);
    }
  }

  lemma SoundOf(s: State, o: int)
    requires Good(s) && o in s.objs
    ensures Sound(s.objs[o])
  {
  }

  lemma DeadStep(s: State, m: Move, s': State, o: int)
    requires Next(s, m, s') && o in s.objs && Sound(s.objs[o]) && s.objs[o].count == 0
    ensures o in s'.objs && s'.objs[o].count == 0
  {
  }

  /** A try for an object whose count was above 0 when it was read. */
  ghost predicate Hopeful(s: State, t: int, o: int) {
    t in s.tries && s.tries[t].obj == o && s.tries[t].seen > 0 && o in s.objs && s.objs[o].count > 0
  }

  lemma HopefulStep(s: State, m: Move, s': State, t: int, o: int)
    requires Good(s) && Next(s, m, s') && Hopeful(s, t, o) && o in s'.objs && s'.objs[o].count > 0
    ensures Hopeful(s', t, o) || (t !in s'.tries && exists k :: k !in s.objs[o].holders && s'.objs[o].holders == s.objs[o].holders + {k} && s'.objs[o].count == s.objs[o].count + 1)
  {
    if m.Swap? && m.t == t && s.objs[o].count == s.tries[t].seen { assert s'.objs[o].holders == s.objs[o].holders + {m.k}; }
  }

  /** kobject_try_get is not refused while the count stays above 0: the loop goes on, or has just ended with one new reference. */
  lemma {:induction false} TryNotRefused(states: seq<State>, moves: seq<Move>, i: nat, j: nat, t: int, o: int)
    requires IsRun(states, moves) && i < j < |states| && moves[i] == Load(t, o)
    requires forall n :: i <= n <= j ==> o in states[n].objs && states[n].objs[o].count > 0
    requires forall n :: i < n < j ==> t in states[n].tries
    ensures Hopeful(states[j], t, o) ||
      (t !in states[j].tries && exists k :: k !in states[j - 1].objs[o].holders && states[j].objs[o].holders == states[j - 1].objs[o].holders + {k})
    decreases j
  {
    if j == i + 1 {
      assert Next(states[i], moves[i], states[j]);
    } else {
      TryNotRefused(states, moves, i, j - 1, t, o);
      RunGood(states, moves, j - 1);
      assert Next(states[j - 1], moves[j - 1], states[j]);
      hide Good, Next, Hopeful;
      HopefulStep(states[j - 1], moves[j - 1], states[j], t, o);
    }
  }
}
