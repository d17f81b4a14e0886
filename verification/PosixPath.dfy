/** Path conversion of the POSIX layer, and the working directory it depends on. */
module PosixPath {

  function FirstSlash(s: string): (k: nat)
    ensures k <= |s| && (k < |s| ==> s[k] == '/') && forall i :: 0 <= i < k ==> s[i] != '/'
  {
    if s == "" || s[0] == '/' then 0 else 1 + FirstSlash(s[1..])
  }

  /** What is left after the first component and its slash. */
  function Rest(s: string): string {
    var k := FirstSlash(s);
    if k < |s| then s[k + 1..] else ""
  }

  function Components(s: string): seq<string>
    decreases |s|
  {
    if s == "" then [] else [s[..FirstSlash(s)]] + Components(Rest(s))
  }

  // ----- What conversion means: a fold over the components.

  function Keep(kept: seq<string>, c: string): seq<string> {
    if c == "" || c == "." then kept
    else if c == ".." && kept != [] then kept[..|kept| - 1]
    else kept + [c]
  }

  function KeepAll(kept: seq<string>, cs: seq<string>): seq<string>
    decreases |cs|
  {
    if cs == [] then kept else KeepAll(Keep(kept, cs[0]), cs[1..])
  }

  function Join(kept: seq<string>): string {
    if kept == [] then "" else Join(kept[..|kept| - 1]) + "/" + kept[|kept| - 1]
  }

  predicate Absolute(path: string) { path != "" && path[0] == '/' }

  function Kept(workingDirectory: string, path: string): seq<string> {
    KeepAll(KeepAll([], if Absolute(path) then [] else Components(workingDirectory)), Components(path))
  }

  function Converted(workingDirectory: string, path: string): string {
    var name := Join(Kept(workingDirectory, path));
    if name == "" then "/" else name
  }

  predicate NoSlash(c: string) { forall i :: 0 <= i < |c| ==> c[i] != '/' }

  /** Only the first component of a result can be ".."; none is empty or ".". */
  ghost predicate Normal(kept: seq<string>) {
    forall i :: 0 <= i < |kept| ==> kept[i] != "" && kept[i] != "." && (kept[i] == ".." ==> i == 0) && NoSlash(kept[i])
  }

  lemma {:induction false} ComponentsNoSlash(s: string)
    ensures forall i :: 0 <= i < |Components(s)| ==> NoSlash(Components(s)[i])
    decreases |s|
  {
    if s != "" { ComponentsNoSlash(Rest(s)); }
  }

  lemma {:induction false} KeepAllNormal(kept: seq<string>, cs: seq<string>)
    requires Normal(kept) && forall i :: 0 <= i < |cs| ==> NoSlash(cs[i])
    ensures Normal(KeepAll(kept, cs))
    decreases |cs|
  {
    if cs != [] { KeepAllNormal(Keep(kept, cs[0]), cs[1..]); }
  }

  lemma KeptNormal(workingDirectory: string, path: string)
    ensures Normal(Kept(workingDirectory, path))
  {
    ComponentsNoSlash(workingDirectory);
    ComponentsNoSlash(path);
    var first := if Absolute(path) then [] else Components(workingDirectory);
    KeepAllNormal([], first);
    KeepAllNormal(KeepAll([], first), Components(path));
  }

  /** A normal list passes through the fold unchanged. */
  lemma {:induction false} KeepAllSame(kept: seq<string>, cs: seq<string>)
    requires Normal(kept + cs)
    ensures KeepAll(kept, cs) == kept + cs
    decreases |cs|
  {
    if cs == [] {
      assert kept + cs == kept;
    } else {
      assert (kept + cs)[|kept|] == cs[0];
      assert (kept + [cs[0]]) + cs[1..] == kept + cs;
      KeepAllSame(kept + [cs[0]], cs[1..]);
    }
  }

  lemma {:induction false} JoinFront(c: string, kept: seq<string>)
    ensures Join([c] + kept) == "/" + c + Join(kept)
  {
    if kept == [] {
      assert [c] + kept == [c] && [c][..0] == [];
      assert Join([]) == "" && Join([c]) == Join([]) + "/" + c;
      assert "/" + c + "" == "/" + c;
    } else {
      var rest, last := kept[..|kept| - 1], kept[|kept| - 1];
      JoinFront(c, rest);
      assert ([c] + kept)[..|kept|] == [c] + rest;
      assert "/" + c + Join(rest) + "/" + last == "/" + c + (Join(rest) + "/" + last);
    }
  }

  lemma FirstSlashAt(s: string, k: nat)
    requires k <= |s| && (k < |s| ==> s[k] == '/') && forall i :: 0 <= i < k ==> s[i] != '/'
    ensures FirstSlash(s) == k
  {
  }

  ghost predicate Plain(kept: seq<string>) { forall i :: 0 <= i < |kept| ==> kept[i] != "" && NoSlash(kept[i]) }

  /** The components of a joined list are an empty one and then the list. */
  lemma JoinComponents(kept: seq<string>)
    requires Plain(kept) && kept != []
    ensures Components(Join(kept)) == [""] + kept
  {
    hide Components, FirstSlash;
    var c, rest := kept[0], kept[1..];
    assert kept == [c] + rest;
    JoinFront(c, rest);
    assert Join(kept) == "" + "/" + (c + Join(rest));
    FirstComponent(Join(kept), "", c + Join(rest));
    JoinComponentsAfter(c, rest);
  }

  lemma FirstComponent(s: string, c: string, rest: string)
    requires s == c + "/" + rest && NoSlash(c)
    ensures Components(s) == [c] + Components(rest)
  {
    assert s[|c|] == '/';
    FirstSlashAt(s, |c|);
    assert s[..|c|] == c;
    assert Rest(s) == rest;
  }

  lemma OneComponent(c: string)
    requires c != "" && NoSlash(c)
    ensures Components(c) == [c]
  {
    FirstSlashAt(c, |c|);
    assert c[..|c|] == c && Rest(c) == "";
  }

  lemma {:induction false} JoinComponentsAfter(c: string, rest: seq<string>)
    requires c != "" && NoSlash(c) && Plain(rest)
    ensures Components(c + Join(rest)) == [c] + rest
    decreases |rest|
  {
    hide Components;
    if rest == [] {
      assert c + Join(rest) == c;
      OneComponent(c);
    } else {
      JoinFront(rest[0], rest[1..]);
      assert rest == [rest[0]] + rest[1..];
      FirstComponent(c + Join(rest), c, rest[0] + Join(rest[1..]));
      JoinComponentsAfter(rest[0], rest[1..]);
    }
  }

  /** Converting a converted path changes nothing, whatever the working directory is by then. */
  lemma ConvertedTwice(workingDirectory: string, path: string, later: string)
    ensures Absolute(Converted(workingDirectory, path))
    ensures Converted(later, Converted(workingDirectory, path)) == Converted(workingDirectory, path)
  {
    hide Components, FirstSlash;
    var kept := Kept(workingDirectory, path);
    KeptNormal(workingDirectory, path);
    if kept == [] {
      FirstComponent("/", "", "");
      NoComponents();
      assert KeepAll([], [""]) == KeepAll([], []);
    } else {
      JoinFront(kept[0], kept[1..]);
      assert kept == [kept[0]] + kept[1..];
      JoinComponents(kept);
      assert ([""] + kept)[1..] == kept;
      KeepAllSame([], kept);
      assert [] + kept == kept;
    }
  }

  lemma NoComponents()
    ensures Components("") == []
  {
  }

  // ----- The space it takes.

  /** What the components of a string can add to a name, each with its slash. */
  function Cost(s: string): nat
    decreases |s|
  {
    if s == "" then 0 else (if FirstSlash(s) == 0 then 0 else FirstSlash(s) + 1) + Cost(Rest(s))
  }

  predicate EndsInSlash(s: string) { s != "" && s[|s| - 1] == '/' }

  /** What the working directory is: empty, or with a slash at its end. */
  predicate IsDirectory(s: string) { s == "" || EndsInSlash(s) }

  /**
    * The slash before a component is paid for by the one after it, except after the last; a leading slash pays for
    * nothing.
    */
  lemma {:induction false} CostBound(s: string)
    ensures Cost(s) <= |s| + (if s == "" || EndsInSlash(s) then 0 else 1) - (if Absolute(s) then 1 else 0)
    decreases |s|
  {
    if s != "" {
      var k := FirstSlash(s);
      if k < |s| {
        CostBound(Rest(s));
        assert Rest(s) != "" ==> Rest(s)[|Rest(s)| - 1] == s[|s| - 1];
      } else {
        assert Rest(s) == "";
      }
    }
  }

  function BaseOf(workingDirectory: string, path: string): string { if Absolute(path) then "" else workingDirectory }

  lemma KeepCost(kept: seq<string>, c: string)
    ensures |Join(Keep(kept, c))| <= |Join(kept)| + if c == "" then 0 else |c| + 1
  {
    assert (kept + [c])[..|kept|] == kept;
  }

  lemma {:induction false} KeepAllCost(kept: seq<string>, s: string)
    ensures |Join(KeepAll(kept, Components(s)))| <= |Join(kept)| + Cost(s)
    decreases |s|
  {
    if s != "" {
      var c := s[..FirstSlash(s)];
      EntryOf(s, c);
      KeepCost(kept, c);
      hide Join, Keep, Components, Cost;
      KeepAllCost(Keep(kept, c), Rest(s));
    }
  }

  /**
    * The name is at most one longer than the strings it is made from, and no longer than them if the path or the
    * working directory starts with a slash: then a slash and a NUL fit behind it.
    */
  lemma NameFits(workingDirectory: string, path: string)
    requires IsDirectory(workingDirectory)
    ensures var base := BaseOf(workingDirectory, path);
            var spare := if Absolute(path) || Absolute(workingDirectory) then 0 else 1;
            && Cost(base) + Cost(path) <= |base| + |path| + spare
            && |Converted(workingDirectory, path)| <= |base| + |path| + spare
  {
    var base := BaseOf(workingDirectory, path);
    CostBound(base);
    CostBound(path);
    KeepAllCost([], base);
    hide Cost, Components;
    KeepAllCost(KeepAll([], Components(base)), path);
    BaseComponents(workingDirectory, path);
  }

  lemma KeepTwo(a: string, b: string)
    requires Normal([a, b]) && b != ".."
    ensures KeepAll(KeepAll([], [a]), [b]) == [a, b] && Join([a, b]) == "/" + a + "/" + b
  {
    assert [a, b][0] == a && [a, b][1] == b;
    assert [a][1..] == [] && [b][1..] == [];
    assert [] + [a] == [a] && [a] + [b] == [a, b];
    assert [a, b][..1] == [a] && [a][..0] == [];
    assert Join([a]) == "/" + a;
  }

  // ----- Exactly when the second of the two does not fit.

  /** The length of the components, each with a slash. */
  function Width(cs: seq<string>): nat {
    if cs == [] then 0 else Width(cs[1..]) + |cs[0]| + 1
  }

  /** A string is its components with a slash behind each, except that the last slash may be missing. */
  lemma {:induction false} ComponentsWidth(s: string)
    ensures Width(Components(s)) == |s| + if IsDirectory(s) then 0 else 1
    decreases |s|
  {
    if s != "" {
      EntryOf(s, s[..FirstSlash(s)]);
      ComponentsWidth(Rest(s));
      assert Rest(s) != "" ==> Rest(s)[|Rest(s)| - 1] == s[|s| - 1];
    }
  }

  /** Every component ends up in the name, given what is there already. */
  predicate AllKept(kept: seq<string>, cs: seq<string>) {
    forall i :: 0 <= i < |cs| ==> cs[i] != "" && cs[i] != "." && (cs[i] == ".." ==> kept == [] && i == 0)
  }

  lemma AllKeptFirst(kept: seq<string>, cs: seq<string>)
    requires cs != []
    ensures AllKept(kept, cs) <==>
            cs[0] != "" && cs[0] != "." && (cs[0] == ".." ==> kept == []) && AllKept(kept + [cs[0]], cs[1..])
  {
    assert forall i :: 0 <= i < |cs| - 1 ==> cs[1..][i] == cs[i + 1];
    assert forall i :: 0 < i < |cs| ==> cs[i] == cs[1..][i - 1];
  }

  lemma {:induction false} KeepAllWidth(kept: seq<string>, cs: seq<string>)
    ensures |Join(KeepAll(kept, cs))| <= |Join(kept)| + Width(cs)
    ensures |Join(KeepAll(kept, cs))| == |Join(kept)| + Width(cs) <==> AllKept(kept, cs)
    decreases |cs|
  {
    if cs != [] {
      var c, next := cs[0], Keep(kept, cs[0]);
      KeepAllWidth(next, cs[1..]);
      AllKeptFirst(kept, cs);
      if c != "" && c != "." && (c == ".." ==> kept == []) {
        assert (kept + [c])[..|kept|] == kept;
      }
    }
  }

  lemma {:induction false} KeepAllJoin(kept: seq<string>, a: seq<string>, b: seq<string>)
    ensures KeepAll(KeepAll(kept, a), b) == KeepAll(kept, a + b)
    decreases |a|
  {
    if a == [] {
      assert a + b == b;
    } else {
      KeepAllJoin(Keep(kept, a[0]), a[1..], b);
      assert (a + b)[1..] == a[1..] + b;
    }
  }

  lemma {:induction false} WidthJoin(a: seq<string>, b: seq<string>)
    ensures Width(a + b) == Width(a) + Width(b)
    decreases |a|
  {
    if a == [] {
      assert a + b == b;
    } else {
      WidthJoin(a[1..], b);
      assert (a + b)[1..] == a[1..] + b;
    }
  }

  /** The path has no slash at its end, and no component of directory or path is dropped; or there is nothing at all. */
  predicate TooLong(workingDirectory: string, path: string) {
    || (workingDirectory == "" && path == "")
    || (!IsDirectory(path) && AllKept([], Components(workingDirectory) + Components(path)))
  }

  lemma AbsoluteNotKept(s: string, cs: seq<string>)
    requires Absolute(s)
    ensures Components(s) != [] && Components(s)[0] == "" && !AllKept([], cs + Components(s))
  {
    assert FirstSlash(s) == 0;
    assert (cs + Components(s))[|cs|] == "";
  }

  lemma {:induction false} NameTooLongIff(workingDirectory: string, path: string)
    requires IsDirectory(workingDirectory)
    ensures |Converted(workingDirectory, path)| > |BaseOf(workingDirectory, path)| + |path| <==>
            TooLong(workingDirectory, path)
  {
    if Absolute(path) {
      NameFits(workingDirectory, path);
      AbsoluteNotKept(path, Components(workingDirectory));
    } else {
      RelativeTooLong(workingDirectory, path);
    }
  }

  lemma RelativeTooLong(workingDirectory: string, path: string)
    requires IsDirectory(workingDirectory) && !Absolute(path)
    ensures |Converted(workingDirectory, path)| > |workingDirectory| + |path| <==> TooLong(workingDirectory, path)
  {
    var a, b := Components(workingDirectory), Components(path);
    ComponentsWidth(workingDirectory);
    ComponentsWidth(path);
    hide Components, KeepAll, Width, AllKept, Join;
    KeepAllJoin([], a, b);
    WidthJoin(a, b);
    KeepAllWidth([], a + b);
    JoinNothing();
  }

  /** Such a directory and path. */
  lemma NameTooLong()
    ensures |Converted("a/", "b")| > |BaseOf("a/", "b")| + |"b"|
  {
    FirstComponent("a/", "a", "");
    OneComponent("b");
    NoComponents();
    hide Components, KeepAll, Join;
    assert ["a"] + [] == ["a"];
    KeepTwo("a", "b");
  }

  // ----- The program.

  /** Reads one component: its length, and where the next one starts. */
  method NextEntry(s: string, from: nat) returns (length: nat, next: nat)
    requires from < |s|
    ensures length == FirstSlash(s[from..]) && next <= |s| && s[next..] == Rest(s[from..]) && from < next
  {
    length := 0;
    next := from;
    while next < |s|
      invariant next == from + length <= |s| && forall i :: from <= i < next ==> s[i] != '/'
    {
      next := next + 1;
      if s[from + length] == '/' {
        FirstSlashAt(s[from..], length);
        return;
      }
      length := length + 1;
    }
    FirstSlashAt(s[from..], length);
  }

  /** Where the last component starts. */
  lemma LastSlash(kept: seq<string>)
    requires kept != [] && NoSlash(kept[|kept| - 1])
    ensures var n := |Join(kept[..|kept| - 1])|;
            && n < |Join(kept)| && Join(kept)[n] == '/' && Join(kept)[..n] == Join(kept[..|kept| - 1])
            && forall i :: n < i < |Join(kept)| ==> Join(kept)[i] != '/'
  {
  }

  predicate Ignored(c: string) { c == "" || c == "." }

  method Copy(name: array<char>, at: nat, s: string)
    requires at + |s| <= name.Length
    modifies name
    ensures name[at..at + |s|] == s && name[..at] == old(name[..at])
  {
    for i := 0 to |s|
      invariant name[at..at + i] == s[..i] && name[..at] == old(name[..at])
    {
      name[at + i] := s[i];
    }
  }

  /** Takes the last component off again. */
  method RemoveLast(name: array<char>, o: nat, length: nat, ghost kept: seq<string>) returns (shorter: nat)
    requires o + length <= name.Length && name[o..o + length] == Join(kept) && kept != [] && NoSlash(kept[|kept| - 1])
    ensures shorter <= length && name[o..o + shorter] == Join(kept[..|kept| - 1])
  {
    LastSlash(kept);
    ghost var n := |Join(kept[..|kept| - 1])|;
    shorter := length - 1;
    assert forall i :: 0 <= i < length ==> name[o + i] == Join(kept)[i];
    while name[o + shorter] != '/'
      invariant n <= shorter < length
      decreases shorter
    {
      shorter := shorter - 1;
    }
    assert name[o..o + n] == Join(kept)[..n];
  }

  method AddEntry(name: array<char>, o: nat, length: nat, entry: string, ghost kept: seq<string>) returns (length': nat)
    requires o + length <= name.Length && name[o..o + length] == Join(kept) && Normal(kept)
    requires !Ignored(entry) ==> o + length + 1 + |entry| <= name.Length
    modifies name
    ensures o + length' <= name.Length && name[o..o + length'] == Join(Keep(kept, entry))
    ensures length' <= length + if entry == "" then 0 else 1 + |entry|
  {
    hide Join;
    length' := length;
    JoinEmptyIff(kept);
    if Ignored(entry) {
    } else if entry == ".." && length != 0 {
      length' := RemoveLast(name, o, length, kept);
    } else {
      length' := Append(name, o, length, entry, kept);
    }
  }

  lemma JoinEmptyIff(kept: seq<string>)
    ensures Join(kept) == "" <==> kept == []
  {
  }

  method Append(name: array<char>, o: nat, length: nat, entry: string, ghost kept: seq<string>) returns (length': nat)
    requires o + length + 1 + |entry| <= name.Length && name[o..o + length] == Join(kept)
    modifies name
    ensures length' == length + 1 + |entry| && name[o..o + length'] == Join(kept + [entry])
  {
    hide Join;
    name[o + length] := '/';
    assert name[o..o + length] == Join(kept);
    ghost var before := name[..o + length + 1];
    Copy(name, o + length + 1, entry);
    assert name[o..o + length] == before[o..o + length] && name[o + length] == before[o + length];
    length' := length + 1 + |entry|;
    JoinedBehind(name[..], o, length, kept, entry);
    assert name[..][o..o + length'] == name[o..o + length'];
  }

  lemma JoinedBehind(name: string, o: nat, length: nat, kept: seq<string>, entry: string)
    requires o + length + 1 + |entry| <= |name| && name[o..o + length] == Join(kept) && name[o + length] == '/'
    requires name[o + length + 1..o + length + 1 + |entry|] == entry
    ensures name[o..o + length + 1 + |entry|] == Join(kept + [entry])
  {
    assert (kept + [entry])[..|kept|] == kept;
    assert name[o..o + length + 1 + |entry|] ==
           name[o..o + length] + [name[o + length]] + name[o + length + 1..o + length + 1 + |entry|];
  }

  /** The components of one string, added to the name one by one. */
  method AddString(name: array<char>, o: nat, length: nat, s: string, ghost kept: seq<string>) returns (length': nat)
    requires o + length + Cost(s) <= name.Length && name[o..o + length] == Join(kept) && Normal(kept)
    modifies name
    ensures length' <= length + Cost(s) && name[o..o + length'] == Join(KeepAll(kept, Components(s)))
    ensures Normal(KeepAll(kept, Components(s)))
  {
    hide Join, FirstSlash, Rest;
    length' := length;
    var position := 0;
    ghost var now := kept;
    assert s[0..] == s;
    while position < |s|
      invariant position <= |s| && Normal(now)
                && KeepAll(now, Components(s[position..])) == KeepAll(kept, Components(s))
      invariant length' + Cost(s[position..]) <= length + Cost(s) && name[o..o + length'] == Join(now)
    {
      var entryLength, next := NextEntry(s, position);
      var entry := s[position..position + entryLength];
      EntryOf(s[position..], entry);
      ComponentsNoSlash(s[position..]);
      length' := AddEntry(name, o, length', entry, now);
      assert Normal(Keep(now, entry));
      now := Keep(now, entry);
      position := next;
    }
  }

  lemma EntryOf(s: string, entry: string)
    requires s != "" && entry == s[..FirstSlash(s)]
    ensures Components(s) == [entry] + Components(Rest(s)) && Components(s)[0] == entry
            && Components(s)[1..] == Components(Rest(s))
    ensures Cost(s) == (if entry == "" then 0 else |entry| + 1) + Cost(Rest(s))
  {
  }

  const PREFIX := "|POSIX:"

  class Process {
    var workingDirectory: string

    ghost predicate Valid()
      reads this
    {
      IsDirectory(workingDirectory)
    }

    constructor (workingDirectory: string)
      requires IsDirectory(workingDirectory)
      ensures Valid() && this.workingDirectory == workingDirectory
    {
      this.workingDirectory := workingDirectory;
    }

    /** `EsPOSIXConvertPath`: the converted path in a buffer with room for a NUL, and for one more slash or not. */
    method ConvertPath(path: string, addPrefix: bool) returns (name: array<char>, length: nat)
      requires Valid()
      ensures fresh(name) && length < name.Length && name[length] == '\0'
      ensures length + 2 <= name.Length <==> !TooLong(workingDirectory, path)
      ensures name[..length] == (if addPrefix then PREFIX else "") + Converted(workingDirectory, path)
    {
      hide Cost, Components, Join, KeepAll, TooLong;
      var base := BaseOf(workingDirectory, path);
      NameFits(workingDirectory, path);
      NameTooLongIff(workingDirectory, path);
      var o := if addPrefix then 7 else 0;
      name := new char[|base| + |path| + o + 2](i => '\0');
      length := 0;
      JoinNothing();
      ghost var first := KeepAll([], Components(base));
      length := AddString(name, o, length, base, []);
      length := AddString(name, o, length, path, first);
      assert Join(Kept(workingDirectory, path)) == name[o..o + length] by { BaseComponents(workingDirectory, path); }
      if length == 0 {
        length := 1;
        name[o] := '/';
      }
      assert name[o..o + length] == Converted(workingDirectory, path);
      if addPrefix {
        FinishPrefix(name, o, length);
        length := length + 7;
      }
      name[length] := '\0';
    }

    /** `SYS_chdir`: the converted path becomes the working directory, with a slash behind it. */
    method ChangeDirectory(path: string)
      requires Valid() && !TooLong(workingDirectory, path)
      modifies this
      ensures Valid() && Absolute(workingDirectory) && workingDirectory == Converted(old(workingDirectory), path) + "/"
    {
      hide Converted;
      ConvertedTwice(workingDirectory, path, "");
      var name, length := ConvertPath(path, false);
      ghost var converted := name[..length];
      name[length] := '/';
      name[length + 1] := '\0';
      workingDirectory := name[..length + 1];
      assert workingDirectory == converted + "/";
    }
  }

  method FinishPrefix(name: array<char>, o: nat, length: nat)
    requires o == 7 && o + length <= name.Length
    modifies name
    ensures name[..o + length] == PREFIX + old(name[o..o + length])
    ensures forall i :: o <= i < name.Length ==> name[i] == old(name[i])
  {
    for i := 0 to 7
      invariant name[..i] == PREFIX[..i] && forall j :: 7 <= j < name.Length ==> name[j] == old(name[j])
    {
      name[i] := PREFIX[i];
    }
    assert name[..o + length] == name[..7] + name[7..7 + length];
  }

  lemma JoinNothing()
    ensures Join([]) == "" && Normal([])
  {
  }

  lemma BaseComponents(workingDirectory: string, path: string)
    ensures Kept(workingDirectory, path) ==
            KeepAll(KeepAll([], Components(BaseOf(workingDirectory, path))), Components(path))
  {
  }

  // ----- Changing directory and then using a relative path is using the longer path.

  lemma {:induction false} ComponentsThrough(kept: seq<string>, p: string, q: string)
    requires p != ""
    ensures KeepAll(kept, Components(p + "/" + q)) == KeepAll(KeepAll(kept, Components(p)), Components(q))
    decreases |p|
  {
    hide FirstSlash, Components, Cost, KeepAll;
    var k := FirstSlash(p);
    var c, rest := p[..k], Rest(p);
    EntryOf(p, c);
    KeepFirst(kept, c, Components(rest));
    if k < |p| {
      SlashFirst(p, q);
      KeepFirst(kept, c, Components(rest + "/" + q));
      if rest == "" {
        NoComponents();
        assert "" + "/" + q == "/" + q;
        FirstComponent("/" + q, "", q);
        KeepFirst(Keep(kept, c), "", Components(q));
        KeepNone(Keep(kept, c));
      } else {
        ComponentsThrough(Keep(kept, c), rest, q);
      }
    } else {
      assert p[..|p|] == p && rest == "";
      NoComponents();
      FirstComponent(p + "/" + q, p, q);
      KeepFirst(kept, p, Components(q));
      KeepNone(Keep(kept, p));
    }
  }

  lemma KeepFirst(kept: seq<string>, c: string, cs: seq<string>)
    ensures KeepAll(kept, [c] + cs) == KeepAll(Keep(kept, c), cs)
  {
    assert ([c] + cs)[1..] == cs;
  }

  lemma KeepNone(kept: seq<string>)
    ensures KeepAll(kept, []) == kept
  {
  }

  lemma SlashFirst(p: string, q: string)
    requires FirstSlash(p) < |p|
    ensures Components(p + "/" + q) == [p[..FirstSlash(p)]] + Components(Rest(p) + "/" + q)
  {
    hide Components;
    var k := FirstSlash(p);
    assert p + "/" + q == p[..k] + "/" + (Rest(p) + "/" + q);
    FirstComponent(p + "/" + q, p[..k], Rest(p) + "/" + q);
  }

  lemma ComponentsOfDirectory(kept: seq<string>)
    requires Normal(kept)
    ensures KeepAll([], Components((if kept == [] then "/" else Join(kept)) + "/")) == kept
  {
    hide Components, FirstSlash, Join;
    if kept == [] {
      FirstComponent("//", "", "/");
      FirstComponent("/", "", "");
      NoComponents();
      assert "/" + "/" == "//";
      assert KeepAll([], ["", ""]) == [];
    } else {
      JoinLong(kept);
      ComponentsThrough([], Join(kept), "");
      NoComponents();
      JoinComponents(kept);
      assert ([""] + kept)[1..] == kept && Join(kept) + "/" + "" == Join(kept) + "/";
      KeepAllSame([], kept);
    }
  }

  lemma JoinLong(kept: seq<string>)
    requires kept != []
    ensures Join(kept) != ""
  {
  }

  /** Resolving `q` after changing to `p` is resolving `p/q`. */
  lemma ChangeThenConvert(workingDirectory: string, p: string, q: string)
    requires p != "" && !Absolute(q)
    ensures Converted(Converted(workingDirectory, p) + "/", q) == Converted(workingDirectory, p + "/" + q)
  {
    var kept := Kept(workingDirectory, p);
    KeptNormal(workingDirectory, p);
    ComponentsOfDirectory(kept);
    if kept != [] { JoinLong(kept); }
    hide Components, Join;
    ComponentsThrough(KeepAll([], if Absolute(p) then [] else Components(workingDirectory)), p, q);
    assert Absolute(p + "/" + q) == Absolute(p);
  }
}
