/** Path resolution of utils/xv6fuse.c: a symbolic link is followed by splicing its target into the path, after
    the name of the directory reached so far, and starting over from the root. */
module PathWalk {
  import opened Outcomes

  const PATH_MAX := 4096
  const DIRSIZ := 14
  const MAX_LINKS := 10
  const ROOT := 1

  /** What an inode is: a directory with its entries, a link with its target (or the error reading it gives), or
      anything else. */
  datatype Node = Dir(entries: map<string, int>) | Link(target: Outcome<string>) | File

  type Tree = map<int, Node>

  /** lookup_dir_entry */
  function Lookup(fs: Tree, dir: int, name: string): Outcome<int> {
    if dir !in fs then Err(ENOENT)
    else if !fs[dir].Dir? then Err(ENOTDIR)
    else if name !in fs[dir].entries then Err(ENOENT)
    else Ok(fs[dir].entries[name])
  }

  /** Names lead down a tree: `.` leads back, `..` leads to the directory that names this one, and up from the root
      is the root. */
  ghost predicate IsTree(fs: Tree) {
    && (forall d, c :: Lookup(fs, d, ".") == Ok(c) ==> c == d)
    && (forall c :: Lookup(fs, ROOT, "..") == Ok(c) ==> c == ROOT)
    && (forall d, x, c, p :: Lookup(fs, d, x) == Ok(c) && x != "." && x != ".." && Lookup(fs, c, "..") == Ok(p) ==> p == d)
  }

  // ---------- names in a path ----------

  function NameLength(s: string): (k: nat)
    ensures k <= |s| && '/' !in s[..k] && (k < |s| ==> s[k] == '/')
  {
    if s == [] || s[0] == '/' then 0 else
      var k := 1 + NameLength(s[1..]);
      assert s[..k] == [s[0]] + s[1..][..k - 1];
      k
  }

  function SkipSlashes(s: string): (r: string)
    ensures |r| <= |s| && (r == [] || r[0] != '/') && (s != [] && s[0] == '/' ==> |r| < |s|)
  {
    if s != [] && s[0] == '/' then SkipSlashes(s[1..]) else s
  }

  /** The names in a path. */
  function Names(s: string): seq<string> {
    if s == [] then []
    else if s[0] == '/' then Names(s[1..])
    else [s[..NameLength(s)]] + Names(s[NameLength(s)..])
  }

  lemma NamesSkip(s: string)
    ensures Names(SkipSlashes(s)) == Names(s)
  {
  }

  lemma NameLengthJoin(a: string, b: string)
    requires a != [] && (b == [] || b[0] == '/')
    ensures NameLength(a + b) == NameLength(a)
  {
    assert (a + b)[1..] == a[1..] + b;
    if |a| > 1 && a[0] != '/' { NameLengthJoin(a[1..], b); }
  }

  /** Paths joined at a slash have the names of both. */
  lemma {:induction false} NamesJoin(a: string, b: string)
    requires b == [] || b[0] == '/'
    ensures Names(a + b) == Names(a) + Names(b)
    decreases |a|
  {
    if a == [] {
      assert a + b == b;
    } else {
      var k := if a[0] == '/' then 1 else NameLength(a);
      NameLengthJoin(a, b);
      assert (a + b)[k..] == a[k..] + b && (a + b)[..k] == a[..k];
      NamesJoin(a[k..], b);
    }
  }

  predicate IsName(x: string) {
    x != [] && '/' !in x
  }

  lemma NamesOfName(x: string)
    requires IsName(x)
    ensures Names(x) == [x]
  {
    assert NameLength(x) == |x|;
    assert x[..|x|] == x;
  }

  lemma FirstName(s: string)
    requires s != [] && s[0] != '/'
    ensures IsName(s[..NameLength(s)]) && Names(s) == [s[..NameLength(s)]] + Names(s[NameLength(s)..])
  {
  }

  // ---------- the reference: each target is resolved where its link is ----------

  function Resolved(fs: Tree, dir: int, names: seq<string>, follow: bool, links: nat): Outcome<int>
    decreases links, |names|
  {
    if names == [] then Ok(dir)
    else
      var name, rest := names[0], names[1..];
      if |name| > DIRSIZ then Err(ENAMETOOLONG)
      else
        var found := Lookup(fs, dir, name);
        if found.Err? then Err(found.error)
        else if found.value !in fs then Err(ENOENT)
        else match fs[found.value]
          case Link(target) =>
            if rest == [] && !follow then Ok(found.value)
            else if links == 0 then Err(ELOOP)
            else if target.Err? then Err(target.error)
            else Resolved(fs, if IsAbsolute(target.value) then ROOT else dir, Names(target.value) + rest, follow, links - 1)
          case Dir(_) => Resolved(fs, found.value, rest, follow, links)
          case File => if rest == [] then Ok(found.value) else Err(ENOTDIR)
  }

  /** More links to spare change the result only where it was that there were too many. */
  lemma {:induction false} MoreLinks(fs: Tree, dir: int, names: seq<string>, follow: bool, links: nat)
    ensures Resolved(fs, dir, names, follow, links) != Err(ELOOP) ==>
              Resolved(fs, dir, names, follow, links + 1) == Resolved(fs, dir, names, follow, links)
    decreases links, |names|
  {
    if names != [] && |names[0]| <= DIRSIZ && Lookup(fs, dir, names[0]).Ok? && Lookup(fs, dir, names[0]).value in fs {
      var child, rest := Lookup(fs, dir, names[0]).value, names[1..];
      match fs[child] {
        case Link(target) =>
          if links > 0 && target.Ok? {
            MoreLinks(fs, if IsAbsolute(target.value) then ROOT else dir, Names(target.value) + rest, follow, links - 1);
          }
        case Dir(_) => MoreLinks(fs, child, rest, follow, links);
        case File =>
      }
    }
  }

  predicate IsAbsolute(path: string) {
    path != [] && path[0] == '/'
  }

  // ---------- the name of the directory reached ----------

  /** The names lead from the root through directories, none of them `.` or `..`, to `dir`. */
  ghost predicate Leads(fs: Tree, names: seq<string>, dir: int)
    decreases |names|
  {
    if names == [] then dir == ROOT
    else
      var init, last := names[..|names| - 1], names[|names| - 1];
      && IsName(last) && |last| <= DIRSIZ && last != "." && last != ".."
      && dir in fs && fs[dir].Dir?
      && exists parent :: Leads(fs, init, parent) && Lookup(fs, parent, last) == Ok(dir)
  }

  /** Walking to a directory by its name follows no link: resolution goes on from the directory with as many links
      to spare. */
  lemma {:induction false} Rewalk(fs: Tree, names: seq<string>, dir: int, more: seq<string>, follow: bool, links: nat)
    requires Leads(fs, names, dir)
    ensures Resolved(fs, ROOT, names + more, follow, links) == Resolved(fs, dir, more, follow, links)
    decreases |names|
  {
    if names == [] {
      assert names + more == more;
    } else {
      var init, last := names[..|names| - 1], names[|names| - 1];
      var parent :| Leads(fs, init, parent) && Lookup(fs, parent, last) == Ok(dir);
      assert names + more == init + ([last] + more);
      Rewalk(fs, init, parent, [last] + more, follow, links);
      assert ([last] + more)[1..] == more;
    }
  }

  /** Going up from a directory is what dropping the last name does. */
  lemma GoUp(fs: Tree, names: seq<string>, dir: int, up: int)
    requires IsTree(fs) && Leads(fs, names, dir) && Lookup(fs, dir, "..") == Ok(up)
    ensures Leads(fs, if names == [] then [] else names[..|names| - 1], up)
  {
    if names != [] {
      var init, last := names[..|names| - 1], names[|names| - 1];
      var parent :| Leads(fs, init, parent) && Lookup(fs, parent, last) == Ok(dir);
    }
  }

  lemma GoDown(fs: Tree, names: seq<string>, dir: int, name: string, child: int)
    requires Leads(fs, names, dir) && Lookup(fs, dir, name) == Ok(child) && child in fs && fs[child].Dir?
    requires IsName(name) && |name| <= DIRSIZ && name != "." && name != ".."
    ensures Leads(fs, names + [name], child)
  {
    var names' := names + [name];
    assert names'[..|names'| - 1] == names;
  }

  /** The name of a directory as a string: `/`, or each name after a slash. */
  function Spelled(names: seq<string>): string {
    if names == [] then "/" else Slashed(names)
  }

  function Slashed(names: seq<string>): string {
    if names == [] then "" else Slashed(names[..|names| - 1]) + "/" + names[|names| - 1]
  }

  ghost predicate AllNames(names: seq<string>) {
    forall i :: 0 <= i < |names| ==> IsName(names[i])
  }

  lemma {:induction false} LeadsNames(fs: Tree, names: seq<string>, dir: int)
    requires Leads(fs, names, dir)
    ensures AllNames(names)
    decreases |names|
  {
    if names != [] {
      var init := names[..|names| - 1];
      var parent :| Leads(fs, init, parent) && Lookup(fs, parent, names[|names| - 1]) == Ok(dir);
      LeadsNames(fs, init, parent);
    }
  }

  /** Splitting a name spelled out gives its parts back. */
  lemma {:induction false} NamesSpelled(names: seq<string>)
    requires AllNames(names)
    ensures Names(Slashed(names)) == names && Names(Spelled(names)) == names
    decreases |names|
  {
    if names != [] {
      var init, last := names[..|names| - 1], names[|names| - 1];
      NamesSpelled(init);
      NamesJoin(Slashed(init), "/" + last);
      assert Slashed(init) + "/" + last == Slashed(init) + ("/" + last);
      assert ("/" + last)[1..] == last;
      NamesOfName(last);
      assert init + [last] == names;
    } else {
      assert Names("/") == Names("/"[1..]);
    }
  }

  // ---------- the loop of the source ----------

  /** strrchr for a slash, in a string that has one */
  function LastSlash(s: string): (k: nat)
    requires '/' in s
    ensures k < |s| && s[k] == '/' && '/' !in s[k + 1..]
  {
    if s[|s| - 1] == '/' then |s| - 1 else
      assert s == s[..|s| - 1] + [s[|s| - 1]];
      var k := LastSlash(s[..|s| - 1]);
      assert s[k + 1..] == s[..|s| - 1][k + 1..] + [s[|s| - 1]];
      k
  }

  lemma LastSlashJoin(a: string, x: string)
    requires '/' !in x
    ensures '/' in a + "/" + x && LastSlash(a + "/" + x) == |a|
  {
    var s := a + "/" + x;
    assert s[|a|] == '/';
    var k := LastSlash(s);
  }

  /** The string with which the source goes up: cut at the last slash, but never to nothing. */
  function Upper(path: string): string {
    if path == "/" then path
    else if '/' !in path then "/"
    else if LastSlash(path) == 0 then path[..1] else path[..LastSlash(path)]
  }

  lemma UpperSpelled(names: seq<string>)
    requires AllNames(names)
    ensures Upper(Spelled(names)) != ""
    ensures Upper(Spelled(names)) == Spelled(if names == [] then [] else names[..|names| - 1])
  {
    if names != [] {
      var init, last := names[..|names| - 1], names[|names| - 1];
      LastSlashJoin(Slashed(init), last);
      var s := Slashed(init) + "/" + last;
      assert s[..|Slashed(init)|] == Slashed(init);
      if init != [] { assert Slashed(init) != ""; }
    }
  }

  function Lower(path: string, name: string): string {
    if path == "/" then "/" + name else path + "/" + name
  }

  lemma LowerSpelled(names: seq<string>, name: string)
    requires AllNames(names)
    ensures Lower(Spelled(names), name) == Spelled(names + [name])
  {
    assert (names + [name])[..|names|] == names;
    assert Slashed(names + [name]) == Slashed(names) + "/" + name;
    if names != [] { SpelledLong(names); }
  }

  /** The path that replaces the pending one when a link is followed. */
  function Spliced(here: string, target: string, rest: string): string {
    if IsAbsolute(target) then target + rest
    else if here == "/" then "/" + target + rest
    else here + "/" + target + rest
  }

  lemma NamesSlash(x: string)
    ensures Names("/" + x) == Names(x)
  {
    assert ("/" + x)[1..] == x;
  }

  lemma Regroup(a: string, b: string, c: string)
    ensures a + "/" + b + c == a + ("/" + (b + c)) && "" + ("/" + (b + c)) == "/" + b + c
  {
  }

  lemma SplicedNames(names: seq<string>, target: string, rest: string)
    requires AllNames(names) && (rest == [] || rest[0] == '/')
    ensures Names(Spliced(Spelled(names), target, rest)) == (if IsAbsolute(target) then [] else names) + (Names(target) + Names(rest))
  {
    hide Names, Slashed, NameLength;
    NamesJoin(target, rest);
    NamesSlash(target + rest);
    NamesSpelled(names);
    if names != [] {
      SpelledLong(names);
      NamesJoin(Slashed(names), "/" + (target + rest));
    }
    Regroup(Spelled(names), target, rest);
    var all := Names(target) + Names(rest);
    assert [] + all == all;
    if IsAbsolute(target) {
      assert Spliced(Spelled(names), target, rest) == target + rest;
    } else if names == [] {
      assert Spliced(Spelled(names), target, rest) == "/" + target + rest == "/" + (target + rest);
    } else {
      assert Spliced(Spelled(names), target, rest) == Slashed(names) + ("/" + (target + rest));
    }
  }

  lemma SpelledLong(names: seq<string>)
    requires AllNames(names) && names != []
    ensures Spelled(names) == Slashed(names) != "/"
  {
    assert |names[|names| - 1]| > 0;
  }

  /** Resolving the spliced path from the root is resolving the target where the link is, then the rest. */
  lemma SplicedResolves(fs: Tree, names: seq<string>, dir: int, target: string, rest: string, follow: bool, links: nat)
    requires Leads(fs, names, dir) && (rest == [] || rest[0] == '/')
    ensures Resolved(fs, ROOT, Names(Spliced(Spelled(names), target, rest)), follow, links)
         == Resolved(fs, if IsAbsolute(target) then ROOT else dir, Names(target) + Names(rest), follow, links)
  {
    hide Resolved, Names, Spliced, Spelled;
    LeadsNames(fs, names, dir);
    SplicedNames(names, target, rest);
    if IsAbsolute(target) {
      assert [] + (Names(target) + Names(rest)) == Names(target) + Names(rest);
    } else {
      Rewalk(fs, names, dir, Names(target) + Names(rest), follow, links);
    }
  }

  ghost predicate TargetsFit(fs: Tree, limit: nat) {
    forall n :: n in fs && fs[n].Link? && fs[n].target.Ok? ==> |fs[n].target.value| <= limit
  }

  /** The room that following so many links may take. */
  ghost function Spare(links: nat, limit: nat): nat {
    if links == 0 then 0 else Spare(links - 1, limit) + limit + 2
  }

  lemma SpareIs(links: nat, limit: nat)
    ensures Spare(links, limit) == links * (limit + 2)
  {
  }

  lemma FollowFits(fs: Tree, limit: nat, child: int, here: string, rest: string, links: nat)
    requires TargetsFit(fs, limit) && child in fs && fs[child].Link? && fs[child].target.Ok? && links > 0
    ensures |Spliced(here, fs[child].target.value, rest)| + Spare(links - 1, limit) + 1 <= |here| + |rest| + Spare(links, limit)
  {
  }

  lemma StepFits(here: string, name: string)
    ensures 0 < |Lower(here, name)| <= |here| + 1 + |name| && (here != "" ==> |Upper(here)| <= |here|)
  {
  }

  /** resolve_path_internal. Unless a buffer is too short for a path it has to build, the result is the reference's. */
  method ResolvePath(fs: Tree, path: string, follow: bool, ghost limit: nat) returns (r: Outcome<int>, ghost tooLong: bool)
    requires IsTree(fs)
    ensures path == "" ==> r == Err(ENOENT)
    ensures path != "" && !tooLong ==> r == Resolved(fs, ROOT, Names(path), follow, MAX_LINKS)
    ensures tooLong ==> r == Err(ENAMETOOLONG)
    ensures |path| >= PATH_MAX ==> tooLong
    // No buffer is too short while the path and ten targets fit one together.
    ensures TargetsFit(fs, limit) && |path| + MAX_LINKS * (limit + 2) + 2 < PATH_MAX ==> !tooLong
  {
    hide Resolved, Leads, IsTree, Names, Spelled, Spliced, Lower, Upper, Lookup, TargetsFit, Spare;
    SpareIs(MAX_LINKS, limit);
    tooLong := false;
    if path == "" { return Err(ENOENT), |path| >= PATH_MAX; }
    if |path| >= PATH_MAX { return Err(ENAMETOOLONG), true; }
    var current, here, cursor, links := ROOT, "/", path, MAX_LINKS;
    ghost var names: seq<string> := [];
    ghost var goal := Resolved(fs, ROOT, Names(path), follow, MAX_LINKS);
    AtRoot(fs);
    while true
      invariant !tooLong && 0 <= links <= MAX_LINKS && Leads(fs, names, current) && here == Spelled(names) != ""
      invariant goal == Resolved(fs, current, Names(cursor), follow, links)
      invariant TargetsFit(fs, limit) ==> |here| + |cursor| + Spare(links, limit) <= |path| + 1 + Spare(MAX_LINKS, limit)
      decreases links, |cursor|
    {
      NamesSkip(cursor);
      cursor := SkipSlashes(cursor);
      if cursor == "" {
        NoNames(fs, current, follow, links);
        return Ok(current), false;
      }
      var k := NameLength(cursor);
      FirstName(cursor);
      var name, rest := cursor[..k], cursor[k..];
      Unfolded(fs, current, name, Names(rest), follow, links);
      if k > DIRSIZ { return Err(ENAMETOOLONG), false; }
      cursor := SkipSlashes(rest);
      NamesSkip(rest);
      var last := cursor == "";
      LastName(rest);
      var found := Lookup(fs, current, name);
      if found.Err? { return Err(found.error), false; }
      var child := found.value;
      if child !in fs { return Err(ENOENT), false; }
      if fs[child].Link? && (!last || follow) {
        if links == 0 { return Err(ELOOP), false; }
        links := links - 1;
        var target := fs[child].target;
        if target.Err? { return Err(target.error), false; }
        SplicedResolves(fs, names, current, target.value, rest, follow, links);
        if TargetsFit(fs, limit) { FollowFits(fs, limit, child, here, rest, links + 1); }
        cursor := Spliced(here, target.value, rest);
        if |cursor| >= PATH_MAX { return Err(ENAMETOOLONG), true; }
        AtRoot(fs);
        current, here, names := ROOT, "/", [];
        continue;
      }
      if !last && !fs[child].Dir? { return Err(ENOTDIR), false; }
      LeadsNames(fs, names, current);
      StepFits(here, name);
      if name == "." {
        Itself(fs, current, child);
      } else if name == ".." {
        GoUp(fs, names, current, child);
        UpperSpelled(names);
        here := Upper(here);
        names := if names == [] then [] else names[..|names| - 1];
      } else {
        if |Lower(here, name)| >= PATH_MAX { return Err(ENAMETOOLONG), true; }
        LowerSpelled(names, name);
        if fs[child].Dir? { GoDown(fs, names, current, name, child); }
        here := Lower(here, name);
        names := names + [name];
      }
      current := child;
      if last { return Ok(current), false; }
    }
  }

  lemma AtRoot(fs: Tree)
    ensures Leads(fs, [], ROOT) && Spelled([]) == "/"
  {
  }

  lemma Itself(fs: Tree, dir: int, child: int)
    requires IsTree(fs) && Lookup(fs, dir, ".") == Ok(child)
    ensures child == dir
  {
  }

  lemma NoNames(fs: Tree, dir: int, follow: bool, links: nat)
    ensures Names("") == [] && Resolved(fs, dir, [], follow, links) == Ok(dir)
  {
  }

  lemma LastName(rest: string)
    ensures SkipSlashes(rest) == "" <==> Names(rest) == []
  {
  }

  /** One step of the reference. */
  lemma Unfolded(fs: Tree, dir: int, name: string, rest: seq<string>, follow: bool, links: nat)
    ensures var found := Lookup(fs, dir, name);
            Resolved(fs, dir, [name] + rest, follow, links) ==
            if |name| > DIRSIZ then Err(ENAMETOOLONG)
            else if found.Err? then Err(found.error)
            else if found.value !in fs then Err(ENOENT)
            else if fs[found.value].Link? && (rest != [] || follow) then
              if links == 0 then Err(ELOOP)
              else if fs[found.value].target.Err? then Err(fs[found.value].target.error)
              else Resolved(fs, if IsAbsolute(fs[found.value].target.value) then ROOT else dir,
                            Names(fs[found.value].target.value) + rest, follow, links - 1)
            else if rest == [] then Ok(found.value)
            else if fs[found.value].Dir? then Resolved(fs, found.value, rest, follow, links) else Err(ENOTDIR)
  {
    assert ([name] + rest)[1..] == rest;
    if rest == [] { assert forall f :: Resolved(fs, f, [], follow, links) == Ok(f); }
  }

  // ---------- paths, by what is in the directories ----------

  /** A directory has an entry of that name, short enough, for an inode there is. */
  ghost predicate Enters(fs: Tree, dir: int, name: string, child: int) {
    dir in fs && fs[dir].Dir? && |name| <= 14 && name in fs[dir].entries && fs[dir].entries[name] == child && child in fs
  }

  /** The names lead through directories from one to another. */
  ghost predicate Through(fs: Tree, dir: int, names: seq<string>, end: int)
    decreases |names|
  {
    if names == [] then end == dir
    else exists child :: Enters(fs, dir, names[0], child) && fs[child].Dir? && Through(fs, child, names[1..], end)
  }

  /** They are walked one after the other, and the rest of the path from where they lead. */
  lemma {:induction false} PlainPath(fs: Tree, dir: int, names: seq<string>, end: int, more: seq<string>, follow: bool, links: nat)
    requires Through(fs, dir, names, end)
    ensures Resolved(fs, dir, names + more, follow, links) == Resolved(fs, end, more, follow, links)
    decreases |names|
  {
    if names == [] {
      assert names + more == more;
    } else {
      var child :| Enters(fs, dir, names[0], child) && fs[child].Dir? && Through(fs, child, names[1..], end);
      var rest := names[1..] + more;
      assert names + more == [names[0]] + rest;
      Unfolded(fs, dir, names[0], rest, follow, links);
      PlainPath(fs, child, names[1..], end, more, follow, links);
      if rest == [] { NoNames(fs, child, follow, links); }
    }
  }

  /** The last name gives its inode, the link itself if links are not to be followed; a name that is too long or missing, and
      one that goes on below a file, are errors. */
  lemma NameMeans(fs: Tree, dir: int, name: string, rest: seq<string>, follow: bool, links: nat)
    requires dir in fs && fs[dir].Dir?
    ensures var r := Resolved(fs, dir, [name] + rest, follow, links);
            && (|name| > 14 ==> r == Err(ENAMETOOLONG))
            && (|name| <= 14 && (forall c :: !Enters(fs, dir, name, c)) ==> r == Err(ENOENT))
            && (forall c :: Enters(fs, dir, name, c) && rest == [] && (fs[c].Link? ==> !follow) ==> r == Ok(c))
            && (forall c :: Enters(fs, dir, name, c) && rest != [] && fs[c].File? ==> r == Err(ENOTDIR))
  {
    Unfolded(fs, dir, name, rest, follow, links);
    hide Resolved;
    if |name| <= 14 && name in fs[dir].entries && fs[dir].entries[name] in fs { assert Enters(fs, dir, name, fs[dir].entries[name]); }
  }

  /** A link is followed from the root or from its own directory, while there are links to spare. */
  lemma LinkMeans(fs: Tree, dir: int, name: string, child: int, rest: seq<string>, follow: bool, links: nat)
    requires Enters(fs, dir, name, child) && fs[child].Link? && (rest != [] || follow)
    ensures var r := Resolved(fs, dir, [name] + rest, follow, links);
            if links == 0 then r == Err(ELOOP)
            else match fs[child].target
              case Err(e) => r == Err(e)
              case Ok(t) => r == Resolved(fs, if t != "" && t[0] == '/' then 1 else dir, Names(t) + rest, follow, links - 1)
  {
    Unfolded(fs, dir, name, rest, follow, links);
  }

  /** Each name but the last is of a link to the next. */
  ghost predicate Chain(fs: Tree, dir: int, names: seq<string>, kids: seq<int>) {
    && |kids| == |names| > 0 && (forall i :: 0 <= i < |names| ==> IsName(names[i]) && Enters(fs, dir, names[i], kids[i]))
    && (forall i :: 0 <= i < |names| - 1 ==> fs[kids[i]] == Link(Ok(names[i + 1]))) && !fs[kids[|kids| - 1]].Link?
  }

  /** A chain of links is followed to its end exactly if there are no more of them than may be followed. */
  lemma {:induction false} LinkChain(fs: Tree, dir: int, names: seq<string>, kids: seq<int>, links: nat)
    requires Chain(fs, dir, names, kids)
    ensures Resolved(fs, dir, [names[0]], true, links) == if |names| - 1 <= links then Ok(kids[|kids| - 1]) else Err(ELOOP)
    decreases |names|
  {
    assert Enters(fs, dir, names[0], kids[0]);
    assert [names[0]] + [] == [names[0]];
    if |names| == 1 {
      NameMeans(fs, dir, names[0], [], true, links);
    } else {
      LinkMeans(fs, dir, names[0], kids[0], [], true, links);
      if links > 0 {
        NamesOfName(names[1]);
        assert [names[1]] + [] == [names[1]];
        LinkChain(fs, dir, names[1..], kids[1..], links - 1);
      }
    }
  }
}
