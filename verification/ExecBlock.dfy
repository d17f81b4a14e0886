/** The block of arguments and environment that execve packs and a new process parses. */
module ExecBlock {

  const NUL := '\0'

  predicate IsCString(s: string) { forall i :: 0 <= i < |s| ==> s[i] != NUL }

  predicate AreCStrings(l: seq<string>) { forall i :: 0 <= i < |l| ==> IsCString(l[i]) }

  /** The room that the strings take, each with its NUL. */
  function Size(l: seq<string>): nat {
    if l == [] then 0 else |l[0]| + 1 + Size(l[1..])
  }

  /** The strings lie in the buffer one behind the other from `p` on, each with its NUL. */
  predicate At(b: string, p: nat, l: seq<string>)
    decreases |l|
  {
    l == [] || (p + |l[0]| < |b| && b[p..p + |l[0]|] == l[0] && b[p + |l[0]|] == NUL && At(b, p + |l[0]| + 1, l[1..]))
  }

  /** The arguments and a NUL, then the environment and a NUL. */
  predicate IsBlock(b: string, argv: seq<string>, env: seq<string>) {
    && Size(argv) + Size(env) + 2 <= |b|
    && At(b, 0, argv) && b[Size(argv)] == NUL
    && At(b, Size(argv) + 1, env) && b[Size(argv) + 1 + Size(env)] == NUL
  }

  predicate NamesDirectory(s: string) { "PWD=" <= s }

  predicate HasDirectory(env: seq<string>) { exists i :: 0 <= i < |env| && NamesDirectory(env[i]) }

  /** The environment that is passed on: the working directory is appended if it is missing. */
  function FullEnv(env: seq<string>, workingDirectory: string): seq<string> {
    if HasDirectory(env) then env else env + ["PWD=" + workingDirectory]
  }

  // ----- Parsing.

  function NulAt(b: string, p: nat): (n: nat)
    requires p <= |b|
    ensures p <= n <= |b| && (n < |b| ==> b[n] == NUL) && forall i :: p <= i < n ==> b[i] != NUL
    decreases |b| - p
  {
    if p == |b| || b[p] == NUL then p else NulAt(b, p + 1)
  }

  datatype List = List(strings: seq<string>, end: nat)

  /** One list: strings up to one whose NUL is followed by another; `end` is where that NUL is. */
  function Scan(b: string, p: nat): List
    requires p <= |b|
    decreases |b| - p
  {
    var n := NulAt(b, p);
    if n == |b| then List([], |b|)
    else if n + 1 < |b| && b[n + 1] == NUL then List([b[p..n]], n)
    else var rest := Scan(b, n + 1); List([b[p..n]] + rest.strings, rest.end)
  }

  function Parsed(b: string): (seq<string>, seq<string>) {
    var argv := Scan(b, 0);
    (argv.strings, if argv.end + 2 <= |b| then Scan(b, argv.end + 2).strings else [])
  }

  // ----- When parsing recovers what was packed.

  /** Not empty, and only the first string may be. */
  predicate Separable(l: seq<string>) { l != [] && forall i :: 1 <= i < |l| ==> l[i] != "" }

  lemma NulIs(b: string, p: nat, n: nat)
    requires p <= n < |b| && b[n] == NUL && forall i :: p <= i < n ==> b[i] != NUL
    ensures NulAt(b, p) == n
  {
  }

  lemma {:induction false} AtSplit(b: string, p: nat, l: seq<string>, k: nat)
    requires k <= |l|
    ensures Size(l) == Size(l[..k]) + Size(l[k..])
    ensures At(b, p, l) <==> At(b, p, l[..k]) && At(b, p + Size(l[..k]), l[k..])
    decreases k
  {
    if k == 0 {
      assert l[..0] == [] && l[0..] == l;
    } else {
      AtSplit(b, p + |l[0]| + 1, l[1..], k - 1);
      assert l[..k][1..] == l[1..][..k - 1] && l[1..][k - 1..] == l[k..] && l[..k][0] == l[0];
    }
  }

  lemma AtFirst(b: string, p: nat, l: seq<string>)
    requires l != [] && At(b, p, l) && IsCString(l[0])
    ensures var n := p + |l[0]|;
            && n < |b| && b[p..n] == l[0] && NulAt(b, p) == n && At(b, n + 1, l[1..])
              && Size(l) == |l[0]| + 1 + Size(l[1..])
            && (l[0] != "" ==> b[p] != NUL)
  {
    var n := p + |l[0]|;
    assert forall i :: p <= i < n ==> b[i] == b[p..n][i - p];
    NulIs(b, p, n);
  }

  lemma ScanStep(b: string, p: nat, n: nat)
    requires p <= |b| && NulAt(b, p) == n < |b|
    ensures n + 1 < |b| && b[n + 1] == NUL ==> Scan(b, p) == List([b[p..n]], n)
    ensures !(n + 1 < |b| && b[n + 1] == NUL) ==>
            Scan(b, p) == List([b[p..n]] + Scan(b, n + 1).strings, Scan(b, n + 1).end)
  {
  }

  /** Scanning a list that can be separated gives it back. */
  lemma {:induction false} ScanList(b: string, p: nat, l: seq<string>)
    requires AreCStrings(l) && Separable(l) && At(b, p, l) && p + Size(l) < |b| && b[p + Size(l)] == NUL
    ensures Scan(b, p) == List(l, p + Size(l) - 1)
    decreases |l|
  {
    hide Scan, NulAt, At;
    AtFirst(b, p, l);
    var n := p + |l[0]|;
    ScanStep(b, p, n);
    if |l| == 1 {
      assert l == [l[0]] && l[1..] == [];
    } else {
      AtFirst(b, n + 1, l[1..]);
      hide Size;
      ScanList(b, n + 1, l[1..]);
      assert l == [l[0]] + l[1..];
    }
  }

  /** The longest front part of a list that can be separated. */
  lemma Front(l: seq<string>) returns (k: nat)
    requires l != [] && !Separable(l)
    ensures 1 <= k < |l| && Separable(l[..k]) && l[k] == ""
  {
    k := 1;
    while l[k] != ""
      invariant 1 <= k < |l| && Separable(l[..k]) && exists i :: k <= i < |l| && l[i] == ""
      decreases |l| - k
    {
      assert l[..k + 1] == l[..k] + [l[k]];
      k := k + 1;
    }
  }

  /** What scanning gives for any list: all of it exactly if it can be separated. */
  lemma ScanIff(b: string, p: nat, l: seq<string>)
    requires AreCStrings(l) && l != [] && At(b, p, l) && p + Size(l) < |b| && b[p + Size(l)] == NUL
    ensures Scan(b, p).strings == l <==> Separable(l)
  {
    if Separable(l) {
      ScanList(b, p, l);
    } else {
      var k := Front(l);
      AtSplit(b, p, l, k);
      assert l[k..][0] == "";
      ScanList(b, p, l[..k]);
    }
  }

  /** A block that starts with a NUL never parses to an empty argument list. */
  lemma ScanSome(b: string)
    requires b != "" && b[0] == NUL
    ensures Scan(b, 0).strings != []
  {
  }

  /**
    * The parser recovers the arguments and the environment exactly if there is an argument, and no string but the first
    * of each list is empty.
    */
  lemma RoundTripIff(b: string, argv: seq<string>, env: seq<string>)
    requires AreCStrings(argv) && AreCStrings(env) && env != [] && IsBlock(b, argv, env)
    ensures Parsed(b) == (argv, env) <==> Separable(argv) && Separable(env)
  {
    hide At, Scan;
    if argv == [] {
      ScanSome(b);
    } else {
      ScanIff(b, 0, argv);
      if Separable(argv) {
        ScanList(b, 0, argv);
        ScanIff(b, Size(argv) + 1, env);
      }
    }
  }

  /** An empty argument behind the first ends the list early. */
  lemma LostArgument(b: string)
    requires IsBlock(b, ["a", ""], ["PWD=/"])
    ensures Scan(b, 0).strings == ["a"]
  {
    AtSplit(b, 0, ["a", ""], 1);
    assert ["a", ""][..1] == ["a"] && ["a", ""][1..] == [""] && Size(["a"]) == 2;
    ScanList(b, 0, ["a"]);
  }

  // ----- Packing.

  method Store(buffer: array<char>, position: nat, s: string) returns (next: nat)
    requires position + |s| < buffer.Length
    modifies buffer
    ensures next == position + |s| + 1 && buffer[position..position + |s|] == s && buffer[position + |s|] == NUL
    ensures forall i :: 0 <= i < buffer.Length && !(position <= i < next) ==> buffer[i] == old(buffer[i])
  {
    for i := 0 to |s|
      invariant buffer[position..position + i] == s[..i]
      invariant forall j :: 0 <= j < buffer.Length && !(position <= j < position + i) ==> buffer[j] == old(buffer[j])
    {
      buffer[position + i] := s[i];
    }
    buffer[position + |s|] := NUL;
    next := position + |s| + 1;
  }

  lemma {:induction false} AtSame(b: string, c: string, p: nat, l: seq<string>)
    requires At(b, p, l) && p + Size(l) <= |c| && |b| == |c| && forall i :: p <= i < p + Size(l) ==> c[i] == b[i]
    ensures At(c, p, l)
    decreases |l|
  {
    if l != [] {
      assert c[p..p + |l[0]|] == b[p..p + |l[0]|];
      AtSame(b, c, p + |l[0]| + 1, l[1..]);
    }
  }

  lemma AtNext(b: string, p: nat, l: seq<string>, i: nat)
    requires i < |l| && At(b, p, l[..i]) && p + Size(l[..i]) + |l[i]| < |b|
    requires b[p + Size(l[..i])..p + Size(l[..i]) + |l[i]|] == l[i] && b[p + Size(l[..i]) + |l[i]|] == NUL
    ensures At(b, p, l[..i + 1]) && Size(l[..i + 1]) == Size(l[..i]) + |l[i]| + 1
  {
    AtSplit(b, p, l[..i + 1], i);
    assert l[..i + 1][..i] == l[..i] && l[..i + 1][i..] == [l[i]] && [l[i]][1..] == [];
  }

  lemma AtNone(b: string, p: nat, l: seq<string>)
    ensures At(b, p, l[..0]) && Size(l[..0]) == 0
  {
  }

  lemma SizeAt(l: seq<string>, i: nat)
    requires i < |l|
    ensures Size(l[..i]) + |l[i]| + 1 <= Size(l)
  {
    AtSplit("", 0, l, i);
    assert l[i..][0] == l[i];
  }

  method StoreAll(buffer: array<char>, position: nat, l: seq<string>) returns (next: nat)
    requires position + Size(l) <= buffer.Length
    modifies buffer
    ensures next == position + Size(l) && At(buffer[..], position, l)
    ensures forall i :: 0 <= i < buffer.Length && !(position <= i < next) ==> buffer[i] == old(buffer[i])
  {
    hide Size, At;
    next := position;
    AtNone(buffer[..], position, l);
    for i := 0 to |l|
      invariant next == position + Size(l[..i]) <= position + Size(l) && At(buffer[..], position, l[..i])
      invariant forall j :: 0 <= j < buffer.Length && !(position <= j < next) ==> buffer[j] == old(buffer[j])
    {
      SizeAt(l, i);
      ghost var was := buffer[..];
      var at := next;
      next := Store(buffer, next, l[i]);
      AtSame(was, buffer[..], position, l[..i]);
      assert buffer[..][at..at + |l[i]|] == buffer[at..at + |l[i]|];
      AtNext(buffer[..], position, l, i);
    }
    assert l[..|l|] == l;
  }

  lemma SizeSnoc(l: seq<string>, s: string)
    ensures Size(l + [s]) == Size(l) + |s| + 1
  {
    AtSplit("", 0, l + [s], |l|);
    assert (l + [s])[..|l|] == l && (l + [s])[|l|..] == [s] && [s][1..] == [];
  }

  method MeasureAll(l: seq<string>) returns (size: nat)
    ensures size == Size(l)
  {
    size := 0;
    AtNone("", 0, l);
    for i := 0 to |l|
      invariant size == Size(l[..i])
    {
      SizeSnoc(l[..i], l[i]);
      assert l[..i + 1] == l[..i] + [l[i]];
      size := size + |l[i]| + 1;
    }
    assert l[..|l|] == l;
  }

  method FindDirectory(env: seq<string>) returns (found: bool)
    ensures found == HasDirectory(env)
  {
    found := false;
    for i := 0 to |env|
      invariant forall j :: 0 <= j < i ==> !NamesDirectory(env[j])
    {
      if "PWD=" <= env[i] {
        assert NamesDirectory(env[i]);
        return true;
      }
    }
  }

  /** `SYS_execve`: the block has exactly the computed size. */
  method Pack(argv: seq<string>, envp: seq<string>, workingDirectory: string) returns (buffer: array<char>)
    ensures fresh(buffer) && buffer.Length == Size(argv) + Size(FullEnv(envp, workingDirectory)) + 2
    ensures IsBlock(buffer[..], argv, FullEnv(envp, workingDirectory))
  {
    hide Size, At, HasDirectory;
    var size := 2;
    var more := MeasureAll(argv);
    size := size + more;
    more := MeasureAll(envp);
    size := size + more;
    var directory := "PWD=" + workingDirectory;
    var found := FindDirectory(envp);
    SizeSnoc(envp, directory);
    if !found {
      size := size + |directory| + 1;
    }
    buffer := new char[size](i => NUL);
    var position := StoreAll(buffer, 0, argv);
    position := StoreBehind(buffer, 0, argv, position + 1, envp);
    if !found {
      StoreDirectory(buffer, argv, envp, directory, position);
    }
  }

  /** A second list, behind a first one that is left as it is. */
  method StoreBehind(buffer: array<char>, ghost p: nat, ghost first: seq<string>, position: nat, l: seq<string>)
    returns (next: nat)
    requires At(buffer[..], p, first) && p + Size(first) <= position && position + Size(l) <= buffer.Length
    modifies buffer
    ensures next == position + Size(l) && At(buffer[..], p, first) && At(buffer[..], position, l)
    ensures forall i :: 0 <= i < buffer.Length && !(position <= i < next) ==> buffer[i] == old(buffer[i])
  {
    hide Size, At;
    ghost var was := buffer[..];
    next := StoreAll(buffer, position, l);
    AtSame(was, buffer[..], p, first);
  }

  method StoreDirectory(buffer: array<char>, ghost argv: seq<string>, ghost envp: seq<string>, directory: string,
                        position: nat)
    requires At(buffer[..], 0, argv) && At(buffer[..], Size(argv) + 1, envp)
    requires position == Size(argv) + 1 + Size(envp) && position + |directory| < buffer.Length
    modifies buffer
    ensures At(buffer[..], 0, argv) && At(buffer[..], Size(argv) + 1, envp + [directory])
    ensures forall i :: 0 <= i < buffer.Length && !(position <= i <= position + |directory|) ==>
            buffer[i] == old(buffer[i])
  {
    hide Size, At;
    ghost var was := buffer[..];
    var next := Store(buffer, position, directory);
    AtSame(was, buffer[..], 0, argv);
    AtSame(was, buffer[..], Size(argv) + 1, envp);
    StoredBehind(buffer[..], Size(argv) + 1, envp, directory);
  }

  lemma StoredBehind(b: string, p: nat, l: seq<string>, s: string)
    requires At(b, p, l) && p + Size(l) + |s| < |b| && b[p + Size(l)..p + Size(l) + |s|] == s
             && b[p + Size(l) + |s|] == NUL
    ensures At(b, p, l + [s])
  {
    assert (l + [s])[..|l|] == l && (l + [s])[..|l| + 1] == l + [s];
    AtNext(b, p, l + [s], |l|);
  }

  // ----- Reading the block.

  /** One round of the parser's outer loop, for a list that ends within the buffer. */
  method ParseList(b: array<char>, from: nat) returns (strings: seq<string>, end: nat)
    requires from <= b.Length && Scan(b[..], from).end + 1 < b.Length
    ensures List(strings, end) == Scan(b[..], from)
  {
    hide Scan;
    ghost var all := b[..];
    ghost var list := Scan(all, from);
    strings := [];
    var start: nat, position: nat := from, from;
    assert [] + list.strings == list.strings;
    while true
      invariant start <= position <= b.Length && NulAt(all, start) == NulAt(all, position)
      invariant list.strings == strings + Scan(all, start).strings && list.end == Scan(all, start).end
      decreases b.Length - position
    {
      ScanOn(all, start);
      if b[position] == NUL {
        ScanStep(all, start, position);
        ScanReach(all, start, position);
        ghost var before := strings;
        strings := strings + [b[start..position]];
        assert before + ([all[start..position]] + Scan(all, position + 1).strings) ==
               strings + Scan(all, position + 1).strings;
        start := position + 1;
        if b[position + 1] == NUL {
          return strings, position;
        }
      }
      position := position + 1;
    }
  }

  lemma ScanReach(b: string, p: nat, n: nat)
    requires p <= |b| && NulAt(b, p) == n < |b| && Scan(b, p).end + 1 < |b|
    ensures n + 1 < |b|
  {
  }

  /** While the list does not end at the end of the buffer, there is another NUL. */
  lemma ScanOn(b: string, p: nat)
    requires p <= |b| && Scan(b, p).end < |b|
    ensures NulAt(b, p) < |b|
  {
  }

  /** The parsing loop of `EsPOSIXInitialise`. */
  method Parse(b: array<char>) returns (argc: nat, argv: seq<string>, env: seq<string>)
    requires Scan(b[..], 0).end + 2 <= b.Length && Scan(b[..], Scan(b[..], 0).end + 2).end + 1 < b.Length
    ensures (argv, env) == Parsed(b[..]) && argc == |argv|
  {
    hide Scan;
    var end: nat;
    argv, end := ParseList(b, 0);
    argc := |argv|;
    env, end := ParseList(b, end + 2);
  }

  /** Packing and parsing: what the new process sees, whatever lies behind the block in its buffer. */
  method PackAndParse(argv: seq<string>, envp: seq<string>, workingDirectory: string, junk: string)
    returns (argc: nat, argv': seq<string>, env': seq<string>)
    requires AreCStrings(argv) && AreCStrings(envp) && IsCString(workingDirectory)
    requires Separable(argv) && Separable(FullEnv(envp, workingDirectory))
    ensures argc == |argv| && argv' == argv && env' == FullEnv(envp, workingDirectory)
  {
    hide Size, At, Scan, Separable, AreCStrings;
    ghost var full := FullEnv(envp, workingDirectory);
    var block := Pack(argv, envp, workingDirectory);
    var read := Behind(block, junk);
    BlockInFront(block[..], read[..], argv, full);
    FullEnvCStrings(envp, workingDirectory);
    Recovered(read[..], argv, full);
    argc, argv', env' := Parse(read);
  }

  method Behind(block: array<char>, junk: string) returns (read: array<char>)
    ensures fresh(read) && block[..] <= read[..]
  {
    read := new char[block.Length + |junk|];
    forall i | 0 <= i < read.Length { read[i] := if i < block.Length then block[i] else junk[i - block.Length]; }
    assert read[..][..block.Length] == block[..];
  }

  lemma FullEnvCStrings(env: seq<string>, workingDirectory: string)
    requires AreCStrings(env) && IsCString(workingDirectory)
    ensures AreCStrings(FullEnv(env, workingDirectory))
  {
  }

  lemma Recovered(b: string, argv: seq<string>, env: seq<string>)
    requires AreCStrings(argv) && AreCStrings(env) && Separable(argv) && Separable(env) && IsBlock(b, argv, env)
    ensures Parsed(b) == (argv, env)
    ensures Scan(b, 0).end + 2 <= |b| && Scan(b, Scan(b, 0).end + 2).end + 1 < |b|
  {
    hide Scan, At;
    RoundTripIff(b, argv, env);
    ScanList(b, 0, argv);
    ScanList(b, Size(argv) + 1, env);
  }

  lemma {:induction false} AtLonger(b: string, c: string, p: nat, l: seq<string>)
    requires At(b, p, l) && b <= c
    ensures At(c, p, l)
    decreases |l|
  {
    if l != [] {
      assert c[p..p + |l[0]|] == b[p..p + |l[0]|];
      AtLonger(b, c, p + |l[0]| + 1, l[1..]);
    }
  }

  lemma BlockInFront(b: string, c: string, argv: seq<string>, env: seq<string>)
    requires IsBlock(b, argv, env) && b <= c
    ensures IsBlock(c, argv, env)
  {
    AtLonger(b, c, 0, argv);
    AtLonger(b, c, Size(argv) + 1, env);
  }
}
