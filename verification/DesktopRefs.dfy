/** The desktop's counts: references to open documents, and instances bound to each process. */
module DesktopRefs {

  /** Zero stands for no document, process or window. */
  const None: nat := 0

  datatype Instance = Instance(window: nat, document: nat, process: nat, application: nat, hasTab: bool)

  datatype Process = Process(application: nat, instanceCount: nat)

  datatype Document = Document(path: string, referenceCount: nat)

  /** `desktopOwned` applications run in the desktop's own process. */
  datatype Application = Application(desktopOwned: bool, useSingleProcess: bool, useSingleInstance: bool,
                                     temporary: bool, singleProcess: nat, singleInstance: nat)

  // ----- Counting.

  function Occurs(s: seq<nat>, v: nat): nat {
    if s == [] then 0 else Occurs(s[..|s| - 1], v) + if s[|s| - 1] == v then 1 else 0
  }

  function One(a: nat, b: nat): nat { if a == b then 1 else 0 }

  lemma {:induction false} OccursJoin(a: seq<nat>, b: seq<nat>, v: nat)
    ensures Occurs(a + b, v) == Occurs(a, v) + Occurs(b, v)
  {
    if b == [] {
      assert a + b == a;
    } else {
      OccursJoin(a, b[..|b| - 1], v);
      assert (a + b)[..|a + b| - 1] == a + b[..|b| - 1];
    }
  }

  lemma OccursOne(w: nat, v: nat)
    ensures Occurs([w], v) == One(w, v)
  {
    assert [w][..0] == [];
  }

  lemma OccursSplit(s: seq<nat>, i: nat, v: nat)
    requires i < |s|
    ensures Occurs(s, v) == Occurs(s[..i], v) + One(s[i], v) + Occurs(s[i + 1..], v)
  {
    OccursJoin(s[..i] + [s[i]], s[i + 1..], v);
    OccursJoin(s[..i], [s[i]], v);
    OccursOne(s[i], v);
    assert s == s[..i] + [s[i]] + s[i + 1..];
  }

  lemma OccursSet(s: seq<nat>, i: nat, w: nat, v: nat)
    requires i < |s|
    ensures Occurs(s[i := w], v) + One(s[i], v) == Occurs(s, v) + One(w, v)
  {
    OccursSplit(s, i, v);
    OccursSplit(s[i := w], i, v);
    assert s[i := w][..i] == s[..i] && s[i := w][i + 1..] == s[i + 1..];
  }

  lemma OccursCut(s: seq<nat>, i: nat, v: nat)
    requires i < |s|
    ensures Occurs(s[..i] + s[i + 1..], v) + One(s[i], v) == Occurs(s, v)
  {
    OccursSplit(s, i, v);
    OccursJoin(s[..i], s[i + 1..], v);
  }

  lemma {:induction false} OccursNone(s: seq<nat>, v: nat)
    requires forall i :: 0 <= i < |s| ==> s[i] != v
    ensures Occurs(s, v) == 0
  {
    if s != [] { OccursNone(s[..|s| - 1], v); }
  }

  function Documents(list: seq<Instance>): (s: seq<nat>)
    ensures |s| == |list| && forall i :: 0 <= i < |list| ==> s[i] == list[i].document
  {
    seq(|list|, i requires 0 <= i < |list| => list[i].document)
  }

  function Processes(list: seq<Instance>): (s: seq<nat>)
    ensures |s| == |list| && forall i :: 0 <= i < |list| ==> s[i] == list[i].process
  {
    seq(|list|, i requires 0 <= i < |list| => list[i].process)
  }

  /** How many instances hold a document, and how many are bound to a process. */
  function Holders(list: seq<Instance>, d: nat): nat { Occurs(Documents(list), d) }

  function Bound(list: seq<Instance>, p: nat): nat { Occurs(Processes(list), p) }

  lemma ListSet(list: seq<Instance>, i: nat, x: Instance, v: nat)
    requires i < |list|
    ensures Holders(list[i := x], v) + One(list[i].document, v) == Holders(list, v) + One(x.document, v)
    ensures Bound(list[i := x], v) + One(list[i].process, v) == Bound(list, v) + One(x.process, v)
  {
    OccursSet(Documents(list), i, x.document, v);
    OccursSet(Processes(list), i, x.process, v);
    assert Documents(list[i := x]) == Documents(list)[i := x.document];
    assert Processes(list[i := x]) == Processes(list)[i := x.process];
  }

  lemma ListCut(list: seq<Instance>, i: nat, v: nat)
    requires i < |list|
    ensures Holders(list[..i] + list[i + 1..], v) + One(list[i].document, v) == Holders(list, v)
    ensures Bound(list[..i] + list[i + 1..], v) + One(list[i].process, v) == Bound(list, v)
  {
    OccursCut(Documents(list), i, v);
    OccursCut(Processes(list), i, v);
    assert Documents(list[..i] + list[i + 1..]) == Documents(list)[..i] + Documents(list)[i + 1..];
    assert Processes(list[..i] + list[i + 1..]) == Processes(list)[..i] + Processes(list)[i + 1..];
  }

  lemma ListAdd(list: seq<Instance>, x: Instance, v: nat)
    ensures Holders(list + [x], v) == Holders(list, v) + One(x.document, v)
    ensures Bound(list + [x], v) == Bound(list, v) + One(x.process, v)
  {
    OccursJoin(Documents(list), [x.document], v);
    OccursJoin(Processes(list), [x.process], v);
    OccursOne(x.document, v);
    OccursOne(x.process, v);
    assert Documents(list + [x]) == Documents(list) + [x.document];
    assert Processes(list + [x]) == Processes(list) + [x.process];
  }

  /** The instances that are not bound to a process, in their order. */
  function Without(list: seq<Instance>, p: nat): seq<Instance> {
    if list == [] then [] else
    Without(list[..|list| - 1], p) + if list[|list| - 1].process == p then [] else [list[|list| - 1]]
  }

  lemma {:induction false} WithoutJoin(a: seq<Instance>, b: seq<Instance>, p: nat)
    ensures Without(a + b, p) == Without(a, p) + Without(b, p)
  {
    if b == [] {
      assert a + b == a;
    } else {
      WithoutJoin(a, b[..|b| - 1], p);
      assert (a + b)[..|a + b| - 1] == a + b[..|b| - 1];
    }
  }

  lemma WithoutOne(x: Instance, p: nat)
    ensures Without([x], p) == if x.process == p then [] else [x]
  {
    assert [x][..0] == [];
  }

  lemma WithoutCut(list: seq<Instance>, p: nat, i: nat)
    requires i < |list| && list[i].process == p
    ensures Without(list[..i] + list[i + 1..], p) == Without(list, p)
  {
    WithoutOne(list[i], p);
    hide Without;
    var a, b := list[..i], list[i + 1..];
    assert list == a + [list[i]] + b;
    WithoutJoin(a + [list[i]], b, p);
    WithoutJoin(a, [list[i]], p);
    WithoutJoin(a, b, p);
  }

  lemma {:induction false} WithoutAll(list: seq<Instance>, p: nat)
    requires forall i :: 0 <= i < |list| ==> list[i].process != p
    ensures Without(list, p) == list
  {
    if list != [] { WithoutAll(list[..|list| - 1], p); }
  }

  lemma {:induction false} WithoutGone(list: seq<Instance>, p: nat)
    ensures forall i :: 0 <= i < |Without(list, p)| ==> Without(list, p)[i].process != p
  {
    if list != [] { WithoutGone(list[..|list| - 1], p); }
  }

  // ----- The counts agree with the list of instances.

  function RefsOf(documents: map<nat, Document>, d: nat): nat {
    if d in documents then documents[d].referenceCount else 0
  }

  /**
    * Every open document's count is the number of instances holding it, plus one where the desktop itself holds it for
    * a moment.
    */
  ghost predicate RefsAgree(documents: map<nat, Document>, list: seq<Instance>, held: nat) {
    && None !in documents
    && (forall d :: d in documents ==> documents[d].referenceCount > 0)
    && (forall d: nat :: d != None ==> RefsOf(documents, d) == Holders(list, d) + One(held, d))
  }

  /**
    * Every process's count is the number of instances bound to it, plus one where an instance is about to move to it.
    */
  ghost predicate CountsAgree(processes: map<nat, Process>, list: seq<Instance>, moving: nat) {
    && None !in processes
    && (forall p :: p in processes ==> processes[p].instanceCount == Bound(list, p) + One(moving, p))
    && (forall i :: 0 <= i < |list| && list[i].process != None ==> list[i].process in processes)
  }

  function Dropped(documents: map<nat, Document>, d: nat): map<nat, Document>
    requires d in documents
  {
    if documents[d].referenceCount <= 1 then documents - {d}
    else documents[d := documents[d].(referenceCount := documents[d].referenceCount - 1)]
  }

  /** Documents may have been closed, but those still open are the same ones. */
  ghost predicate SamePaths(before: map<nat, Document>, after: map<nat, Document>) {
    forall d :: d in after ==> d in before && after[d].path == before[d].path
  }

  lemma SamePathsSelf(documents: map<nat, Document>)
    ensures SamePaths(documents, documents)
  {
  }

  lemma RefsDropped(documents: map<nat, Document>, d: nat, e: nat)
    requires d in documents && documents[d].referenceCount > 0
    ensures RefsOf(Dropped(documents, d), e) + One(d, e) == RefsOf(documents, e)
  {
  }

  /** An instance gives up its document. */
  lemma RefsClosed(documents: map<nat, Document>, list: seq<Instance>, held: nat, i: nat)
    requires RefsAgree(documents, list, held) && i < |list| && list[i].document != None
    ensures list[i].document in documents
    ensures RefsAgree(Dropped(documents, list[i].document), list[i := list[i].(document := None)], held)
  {
    var d, list' := list[i].document, list[i := list[i].(document := None)];
    ListSet(list, i, list'[i], d);
    assert RefsOf(documents, d) > 0;
    forall e: nat | e != None ensures RefsOf(Dropped(documents, d), e) == Holders(list', e) + One(held, e) {
      RefsDropped(documents, d, e);
      ListSet(list, i, list'[i], e);
    }
  }

  /** The desktop gives up its own reference. */
  lemma RefsReleased(documents: map<nat, Document>, list: seq<Instance>, held: nat)
    requires RefsAgree(documents, list, held) && held != None
    ensures held in documents && RefsAgree(Dropped(documents, held), list, None)
  {
    assert RefsOf(documents, held) > 0;
    forall e: nat | e != None ensures RefsOf(Dropped(documents, held), e) == Holders(list, e) + One(None, e) {
      RefsDropped(documents, held, e);
    }
  }

  /** One reference more to an open document, and nothing else. */
  ghost predicate OneMore(documents: map<nat, Document>, documents': map<nat, Document>, d: nat) {
    && documents'.Keys == documents.Keys && SamePaths(documents, documents')
    && forall e :: RefsOf(documents', e) == RefsOf(documents, e) + One(d, e)
  }

  /** An instance without a document takes one that is open. */
  lemma RefsOpened(documents: map<nat, Document>, documents': map<nat, Document>, list: seq<Instance>, held: nat,
                   i: nat, d: nat)
    requires RefsAgree(documents, list, held) && i < |list| && list[i].document == None && d in documents
    requires OneMore(documents, documents', d)
    ensures RefsAgree(documents', list[i := list[i].(document := d)], held)
  {
    var list' := list[i := list[i].(document := d)];
    forall e: nat | e != None ensures RefsOf(documents', e) == Holders(list', e) + One(held, e) {
      ListSet(list, i, list'[i], e);
    }
    forall e | e in documents' ensures documents'[e].referenceCount > 0 {
      assert RefsOf(documents', e) >= RefsOf(documents, e);
    }
  }

  /** The desktop takes a reference of its own. */
  lemma RefsHeld(documents: map<nat, Document>, documents': map<nat, Document>, list: seq<Instance>, d: nat)
    requires RefsAgree(documents, list, None) && d in documents && OneMore(documents, documents', d)
    ensures RefsAgree(documents', list, d)
  {
    forall e | e in documents' ensures documents'[e].referenceCount > 0 {
      assert RefsOf(documents', e) >= RefsOf(documents, e);
    }
  }

  /** A new document, held by an instance that had none. */
  lemma RefsSaved(documents: map<nat, Document>, list: seq<Instance>, i: nat, d: nat, document: Document)
    requires RefsAgree(documents, list, None) && i < |list| && list[i].document == None
    requires d != None && d !in documents && document.referenceCount == 1
    ensures RefsAgree(documents[d := document], list[i := list[i].(document := d)], None)
  {
    var list' := list[i := list[i].(document := d)];
    forall e: nat | e != None ensures RefsOf(documents[d := document], e) == Holders(list', e) + One(None, e) {
      ListSet(list, i, list'[i], e);
    }
  }

  /** Other changes to the list leave the documents' counts alone. */
  lemma RefsSame(documents: map<nat, Document>, list: seq<Instance>, list': seq<Instance>, held: nat)
    requires RefsAgree(documents, list, held) && Documents(list') == Documents(list)
    ensures RefsAgree(documents, list', held)
  {
  }

  lemma RefsCut(documents: map<nat, Document>, list: seq<Instance>, held: nat, i: nat)
    requires RefsAgree(documents, list, held) && i < |list| && list[i].document == None
    ensures RefsAgree(documents, list[..i] + list[i + 1..], held)
  {
    forall e: nat | e != None ensures RefsOf(documents, e) == Holders(list[..i] + list[i + 1..], e) + One(held, e) {
      ListCut(list, i, e);
    }
  }

  lemma RefsAdd(documents: map<nat, Document>, list: seq<Instance>, held: nat, x: Instance)
    requires RefsAgree(documents, list, held) && x.document == None
    ensures RefsAgree(documents, list + [x], held)
  {
    forall e: nat | e != None ensures RefsOf(documents, e) == Holders(list + [x], e) + One(held, e) {
      ListAdd(list, x, e);
    }
  }

  function Recounted(processes: map<nat, Process>, p: nat, n: nat): map<nat, Process>
    requires p in processes
  {
    processes[p := processes[p].(instanceCount := n)]
  }

  lemma CountsStarted(processes: map<nat, Process>, list: seq<Instance>, p: nat)
    requires CountsAgree(processes, list, None) && p in processes
    ensures CountsAgree(Recounted(processes, p, processes[p].instanceCount + 1), list, p)
  {
  }

  lemma CountsCreated(processes: map<nat, Process>, list: seq<Instance>, p: nat, application: nat)
    requires CountsAgree(processes, list, None) && p !in processes && p != None
    ensures CountsAgree(processes[p := Process(application, 0)], list, None)
  {
    OccursNone(Processes(list), p);
  }

  /** An instance leaves its process, whose count is not zero. */
  lemma CountsLeft(processes: map<nat, Process>, list: seq<Instance>, moving: nat, i: nat)
    requires CountsAgree(processes, list, moving) && i < |list| && list[i].process != None
    ensures list[i].process in processes && processes[list[i].process].instanceCount > 0
    ensures CountsAgree(Recounted(processes, list[i].process, processes[list[i].process].instanceCount - 1),
                        list[i := list[i].(process := None)], moving)
  {
    var p, list' := list[i].process, list[i := list[i].(process := None)];
    ListSet(list, i, list'[i], p);
    forall q | q in processes ensures Bound(list', q) + One(p, q) == Bound(list, q) {
      ListSet(list, i, list'[i], q);
    }
  }

  lemma CountsJoined(processes: map<nat, Process>, list: seq<Instance>, i: nat, p: nat)
    requires CountsAgree(processes, list, p) && p in processes && i < |list| && list[i].process == None
    ensures CountsAgree(processes, list[i := list[i].(process := p)], None)
  {
    var list' := list[i := list[i].(process := p)];
    forall q | q in processes ensures Bound(list', q) == Bound(list, q) + One(p, q) {
      ListSet(list, i, list'[i], q);
    }
  }

  lemma CountsSame(processes: map<nat, Process>, list: seq<Instance>, list': seq<Instance>, moving: nat)
    requires CountsAgree(processes, list, moving) && Processes(list') == Processes(list)
    ensures CountsAgree(processes, list', moving)
  {
    forall i | 0 <= i < |list'| && list'[i].process != None ensures list'[i].process in processes {
      assert Processes(list')[i] == Processes(list)[i] == list[i].process;
    }
  }

  lemma CountsCut(processes: map<nat, Process>, list: seq<Instance>, moving: nat, i: nat)
    requires CountsAgree(processes, list, moving) && i < |list| && list[i].process == None
    ensures CountsAgree(processes, list[..i] + list[i + 1..], moving)
  {
    forall q | q in processes ensures Bound(list[..i] + list[i + 1..], q) == Bound(list, q) {
      ListCut(list, i, q);
    }
  }

  lemma CountsAdd(processes: map<nat, Process>, list: seq<Instance>, x: Instance)
    requires CountsAgree(processes, list, x.process) && (x.process != None ==> x.process in processes)
    ensures CountsAgree(processes, list + [x], None)
  {
    forall q | q in processes ensures Bound(list + [x], q) == Bound(list, q) + One(x.process, q) {
      ListAdd(list, x, q);
    }
  }

  lemma CountsGone(processes: map<nat, Process>, list: seq<Instance>, p: nat)
    requires CountsAgree(processes, list, None) && p in processes
             && forall i :: 0 <= i < |list| ==> list[i].process != p
    ensures processes[p].instanceCount == 0 && CountsAgree(processes - {p}, list, None)
  {
    OccursNone(Processes(list), p);
  }

  // ----- Identities.

  /** Windows tell instances apart, and object identifiers are not used twice. */
  ghost predicate WindowsApart(list: seq<Instance>, next: nat) {
    && (forall i :: 0 <= i < |list| ==> list[i].window < next && (list[i].process != None ==> list[i].window != None))
    && (forall i, j :: 0 <= i < j < |list| && list[i].window == list[j].window ==> list[i].window == None)
  }

  ghost predicate IdsUsed(documents: map<nat, Document>, processes: map<nat, Process>, last: nat, next: nat) {
    (forall d :: d in documents ==> d <= last) && (forall p :: p in processes ==> p < next)
  }

  /**
    * A single-process application refers to a live process of its own, and the application for crashed tabs is always
    * there.
    */
  ghost predicate AppsRight(applications: map<nat, Application>, processes: map<nat, Process>, listed: set<nat>) {
    && (forall a :: a in applications && !applications[a].desktopOwned && applications[a].singleProcess != None ==>
          applications[a].singleProcess in processes && processes[applications[a].singleProcess].application == a)
    && None !in applications && CRASHED in applications && applications[CRASHED].desktopOwned
      && !applications[CRASHED].temporary && !applications[CRASHED].useSingleInstance
    && (forall p :: p in listed ==> p in processes)
  }

  const CRASHED: nat := 1

  /** The only instance allowed is already there. */
  predicate Busy(applications: map<nat, Application>, application: nat) {
    application in applications && applications[application].useSingleInstance
      && applications[application].singleInstance != None
  }

  /** The application cannot be run, so the tab for crashed applications is started instead. */
  predicate Redirected(applications: map<nat, Application>, application: nat, opens: bool, created: bool) {
    application !in applications || Unrunnable(applications[application], opens, created)
  }

  predicate Unrunnable(a: Application, opens: bool, created: bool) {
    !a.desktopOwned && a.singleProcess == None && !(opens && created)
  }

  /** Which process an instance of an application runs in; a new one is none of those that were there before. */
  ghost predicate RunsIn(a: Application, process: nat, desktopPid: nat, before: map<nat, Process>) {
    if a.desktopOwned then process == desktopPid
    else if a.singleProcess != None then process == a.singleProcess
    else process !in before
  }

  /** The instance that is started. */
  ghost predicate Started(x: Instance, applications: map<nat, Application>, before: map<nat, Process>, desktopPid: nat,
                          application: nat, document: nat, opens: bool, created: bool) {
    var target := if Redirected(applications, application, opens, created) then CRASHED else application;
    && x.application == target && x.document == (if target == application then document else None)
    && x.process != None && target in applications && RunsIn(applications[target], x.process, desktopPid, before)
  }

  class Desktop {
    const desktopPid: nat
    var instances: seq<Instance>
    /** Process records, until they are freed, and those in the list of processes. */
    var processes: map<nat, Process>
    var listed: set<nat>
    var documents: map<nat, Document>
    var applications: map<nat, Application>
    var currentDocumentID: nat
    /** The next identifier the kernel gives to a process or a window. */
    var nextID: nat
    var inShutdown: bool
    ghost var held: nat
    ghost var moving: nat

    ghost predicate Counted()
      reads this
    {
      && RefsAgree(documents, instances, held) && CountsAgree(processes, instances, moving)
      && WindowsApart(instances, nextID) && IdsUsed(documents, processes, currentDocumentID, nextID)
      && AppsRight(applications, processes, listed) && None < desktopPid < nextID
    }

    /** Between messages: every instance has a process, and nothing is under way. */
    ghost predicate Valid()
      reads this
    {
      Counted() && held == None && moving == None && listed == processes.Keys && AllBound()
    }

    ghost predicate AllBound()
      reads this
    {
      forall i :: 0 <= i < |instances| ==> instances[i].process != None
    }

    constructor (desktopPid: nat, applications: map<nat, Application>, nextID: nat)
      requires None < desktopPid < nextID
      requires None !in applications && CRASHED in applications && applications[CRASHED].desktopOwned
               && !applications[CRASHED].temporary && !applications[CRASHED].useSingleInstance
      requires forall a :: a in applications ==> applications[a].singleProcess == None
      ensures Valid() && instances == []
    {
      this.desktopPid, this.applications, this.nextID := desktopPid, applications, nextID;
      instances, processes, listed, documents, currentDocumentID, inShutdown, held, moving := [], map[], {}, map[], 0,
        false, None, None;
      new;
      assert Documents([]) == [] && Processes([]) == [];
    }

    /** `OpenDocumentCloseReference` */
    method CloseReference(d: nat)
      requires d in documents && documents[d].referenceCount > 0
      modifies `documents
      ensures documents == Dropped(old(documents), d)
    {
      documents := documents[d := documents[d].(referenceCount := documents[d].referenceCount - 1)];
      if documents[d].referenceCount > 0 { return; }
      documents := documents - {d};
      assert documents == old(documents) - {d};
    }

    /** `OpenDocumentOpenReference`; closing the reference brings the counts back. */
    method OpenReference(d: nat)
      requires d in documents && documents[d].referenceCount > 0
      modifies `documents
      ensures OneMore(old(documents), documents, d) && Dropped(documents, d) == old(documents)
    {
      documents := documents[d := documents[d].(referenceCount := documents[d].referenceCount + 1)];
    }

    method SetInstance(i: nat, x: Instance)
      requires Counted() && i < |instances| && x.document == instances[i].document && x.process == instances[i].process
      requires x.window == instances[i].window
               || (x.window == nextID - 1 && x.window != None
                 && forall j :: 0 <= j < |instances| ==> instances[j].window < x.window)
      modifies `instances
      ensures Counted() && instances == old(instances)[i := x]
    {
      hide RefsAgree, CountsAgree, IdsUsed, AppsRight;
      RefsSame(documents, instances, instances[i := x], held);
      CountsSame(processes, instances, instances[i := x], moving);
      instances := instances[i := x];
    }

    /** `ApplicationInstanceCleanup`; its assertions hold. */
    method Cleanup(i: nat)
      requires Counted() && i < |instances|
      modifies `instances, `processes, `documents, `applications
      ensures Counted() && processes.Keys == old(processes.Keys)
      ensures instances == old(instances)[i := old(instances)[i].(document := None, process := None,
              application := None)]
      ensures SamePaths(old(documents), documents)
    {
      CleanupDocument(i);
      CleanupApplication(instances[i].application, instances[i].window);
      CleanupProcess(i);
      SetInstance(i, instances[i].(application := None));
    }

    method CleanupDocument(i: nat)
      requires Counted() && i < |instances|
      modifies `instances, `documents
      ensures Counted() && instances == old(instances)[i := old(instances)[i].(document := None)]
      ensures SamePaths(old(documents), documents)
    {
      hide CountsAgree, AppsRight;
      var x := instances[i];
      if x.document != None {
        RefsClosed(documents, instances, held, i);
        CountsSame(processes, instances, instances[i := x.(document := None)], moving);
        CloseReference(x.document);
        instances := instances[i := x.(document := None)];
      } else {
        assert x == x.(document := None) && instances == instances[i := x];
      }
    }

    method CleanupApplication(application: nat, window: nat)
      requires Counted()
      modifies `applications
      ensures Counted()
    {
      hide RefsAgree, CountsAgree;
      if application in applications && applications[application].singleInstance == window {
        applications := applications[application := applications[application].(singleInstance := None)];
      }
    }

    method CleanupProcess(i: nat)
      requires Counted() && i < |instances|
      modifies `instances, `processes
      ensures Counted() && instances == old(instances)[i := old(instances)[i].(process := None)]
              && processes.Keys == old(processes.Keys)
    {
      hide RefsAgree, CountsAgree;
      var x := instances[i];
      if x.process != None {
        CountsLeft(processes, instances, moving, i);
        RefsSame(documents, instances, instances[i := x.(process := None)], held);
        processes := Recounted(processes, x.process, processes[x.process].instanceCount - 1);
        instances := instances[i := x.(process := None)];
      } else {
        assert x == x.(process := None) && instances == instances[i := x];
      }
    }

    method AddProcess(p: nat, application: nat)
      requires Counted() && moving == None && p !in processes && p != None && p < nextID
      modifies `processes, `listed
      ensures Counted() && processes == old(processes)[p := Process(application, 0)] && listed == old(listed) + {p}
    {
      hide RefsAgree;
      CountsCreated(processes, instances, p, application);
      hide CountsAgree;
      processes := processes[p := Process(application, 0)];
      listed := listed + {p};
    }

    method TakeID() returns (id: nat)
      requires Counted()
      modifies `nextID
      ensures Counted() && id == old(nextID) && nextID == id + 1 && id !in processes && id != None
      ensures forall j :: 0 <= j < |instances| ==> instances[j].window < id
    {
      hide RefsAgree, CountsAgree;
      id := nextID;
      nextID := nextID + 1;
    }

    /** `ApplicationTemporaryDestroy` */
    method DestroyTemporary(application: nat)
      requires Counted() && application in applications
      modifies `applications
      ensures Counted()
      ensures forall a :: a in applications ==> a in old(applications) && applications[a] == old(applications)[a]
    {
      hide RefsAgree, CountsAgree;
      if applications[application].temporary {
        applications := applications - {application};
      }
    }

    /**
      * The process an application's next instance runs in, if there is one or one can be created; `opens` says whether
      * the executable does.
      */
    method FindProcess(application: nat, opens: bool, created: bool) returns (process: nat)
      requires Counted() && moving == None && listed == processes.Keys && application in applications
      modifies `processes, `listed, `nextID, `applications
      ensures Counted() && listed == processes.Keys
      ensures process == None <==> Unrunnable(old(applications)[application], opens, created)
      ensures process != None ==> process in processes
                                  && RunsIn(old(applications)[application], process, desktopPid, old(processes))
    {
      hide RefsAgree, CountsAgree, WindowsApart, IdsUsed;
      process := applications[application].singleProcess;
      if applications[application].desktopOwned {
        process := desktopPid;
        if desktopPid !in listed {
          AddProcess(desktopPid, None);
        }
      } else if process == None {
        if !opens || !created {
          DestroyTemporary(application);
          return;
        }
        process := TakeID();
        AddProcess(process, application);
      }
      if applications[application].useSingleProcess {
        applications := applications[application := applications[application].(singleProcess := process)];
      }
    }

    method IncrementCount(process: nat)
      requires Counted() && moving == None && process in processes
      modifies `processes, `moving
      ensures Counted() && moving == process && processes.Keys == old(processes.Keys)
      ensures processes == Recounted(old(processes), process, old(processes)[process].instanceCount + 1)
    {
      hide RefsAgree;
      CountsStarted(processes, instances, process);
      hide CountsAgree;
      processes := Recounted(processes, process, processes[process].instanceCount + 1);
      moving := process;
    }

    method Bind(i: nat, application: nat, process: nat, window: nat)
      requires Counted() && i < |instances| && instances[i].process == None && moving == process && process in processes
      requires window == nextID - 1 && window != None
               && forall j :: 0 <= j < |instances| ==> instances[j].window < window
      modifies `instances, `moving
      ensures Counted() && moving == None
      ensures instances == old(instances)[i := old(instances)[i].(application := application, process := process,
              window := window)]
    {
      SetInstance(i, instances[i].(application := application, window := window));
      var x := instances[i].(process := process);
      hide IdsUsed, AppsRight;
      RefsSame(documents, instances, instances[i := x], held);
      CountsJoined(processes, instances, i, process);
      hide RefsAgree, CountsAgree;
      instances := instances[i := x];
      moving := None;
    }

    method TakeDocument(i: nat, document: nat)
      requires Counted() && i < |instances| && instances[i].document == None && held == document && document != None
      modifies `instances, `documents
      ensures Counted() && instances == old(instances)[i := old(instances)[i].(document := document)]
              && SamePaths(old(documents), documents)
    {
      hide AppsRight, CountsAgree;
      var x := instances[i].(document := document);
      RefsReleased(documents, instances, held);
      CountsSame(processes, instances, instances[i := x], moving);
      assert documents[document].referenceCount > 0;
      OpenReference(document);
      RefsOpened(old(documents), documents, instances, held, i, document);
      hide RefsAgree, OneMore;
      instances := instances[i := x];
    }

    /** The instance gives up what it held and moves to the process, whose count is raised first. */
    method MoveTo(i: nat, application: nat, process: nat, document: nat)
      requires Counted() && moving == None && listed == processes.Keys && i < |instances| && process in processes
               && process != None
      requires document != None ==> held == document
      modifies `instances, `processes, `documents, `applications, `nextID, `moving
      ensures Counted() && moving == None && listed == processes.Keys && SamePaths(old(documents), documents)
      ensures instances == old(instances)[i := Instance(old(nextID), document, process, application,
              old(instances)[i].hasTab)]
    {
      hide Counted;
      IncrementCount(process);
      Cleanup(i);
      var window := TakeID();
      Bind(i, application, process, window);
      if document != None {
        TakeDocument(i, document);
      }
      if application in applications && applications[application].useSingleInstance {
        SetSingleInstance(application, window);
      }
    }

    /** `ApplicationInstanceStart`, in a new instance or in place of what the instance held before. */
    method Start(i: nat, application: nat, document: nat, opens: bool, created: bool) returns (started: bool)
      requires Counted() && moving == None && listed == processes.Keys && i < |instances|
      requires document != None ==> held == document
      modifies `instances, `processes, `listed, `documents, `applications, `nextID, `moving
      ensures Counted() && moving == None && listed == processes.Keys && |instances| == |old(instances)|
              && SamePaths(old(documents), documents)
      ensures forall j :: 0 <= j < |instances| && (j != i || !started) ==> instances[j] == old(instances)[j]
      ensures started == (!inShutdown && !Busy(old(applications), application))
      ensures started ==> instances[i].hasTab == old(instances)[i].hasTab
      ensures started ==> Started(instances[i], old(applications), old(processes), desktopPid, application, document,
              opens, created)
      decreases application != CRASHED
    {
      CrashedTab();
      SamePathsSelf(documents);
      hide Counted, Started, RunsIn, SamePaths;
      if inShutdown {
        return false;
      }
      if application in applications && applications[application].useSingleInstance
        && applications[application].singleInstance != None {
        return false;
      }
      if application !in applications {
        started := Start(i, CRASHED, None, opens, created);
        CrashedInstead(instances[i], old(applications), applications, old(processes), old(processes), application,
          document, opens, created);
        return;
      }
      var process := FindProcess(application, opens, created);
      if process == None {
        CrashedTab();
        ghost var apps, before := applications, processes;
        started := Start(i, CRASHED, None, opens, created);
        CrashedInstead(instances[i], old(applications), apps, old(processes), before, application, document, opens,
          created);
        return;
      }
      ProcessNotNone(process);
      MoveTo(i, application, process, document);
      StartedHere(instances[i], old(applications), old(processes), application, document, opens, created);
      started := true;
    }

    lemma ProcessNotNone(process: nat)
      requires Counted() && process in processes
      ensures process != None
    {
    }

    lemma StartedHere(x: Instance, apps: map<nat, Application>, before: map<nat, Process>, application: nat,
                      document: nat, opens: bool, created: bool)
      requires application in apps && !Redirected(apps, application, opens, created)
      requires x.application == application && x.document == document && x.process != None
               && RunsIn(apps[application], x.process, desktopPid, before)
      ensures Started(x, apps, before, desktopPid, application, document, opens, created)
    {
    }

    lemma CrashedInstead(x: Instance, apps: map<nat, Application>, apps': map<nat, Application>,
                         before: map<nat, Process>, before': map<nat, Process>,
                         application: nat, document: nat, opens: bool, created: bool)
      requires Redirected(apps, application, opens, created) && CRASHED in apps && apps[CRASHED].desktopOwned
      requires CRASHED in apps' && apps'[CRASHED].desktopOwned
      requires Started(x, apps', before', desktopPid, CRASHED, None, opens, created)
      ensures Started(x, apps, before, desktopPid, application, document, opens, created)
    {
    }

    lemma CrashedTab()
      requires Counted()
      ensures CRASHED in applications && applications[CRASHED].desktopOwned && !applications[CRASHED].useSingleInstance
    {
    }

    method SetSingleInstance(application: nat, window: nat)
      requires Counted() && application in applications
      modifies `applications
      ensures Counted()
    {
      hide RefsAgree, CountsAgree;
      applications := applications[application := applications[application].(singleInstance := window)];
    }

    method AddInstance(x: Instance)
      requires Counted() && x.document == None && x.process == moving
               && (moving != None ==> moving in processes && x.window != None)
      requires x.window == None || (x.window == nextID - 1
               && forall j :: 0 <= j < |instances| ==> instances[j].window < x.window)
      modifies `instances, `moving
      ensures Counted() && instances == old(instances) + [x] && moving == None
    {
      hide IdsUsed, AppsRight;
      RefsAdd(documents, instances, held, x);
      CountsAdd(processes, instances, x);
      hide RefsAgree, CountsAgree;
      instances := instances + [x];
      moving := None;
    }

    method RemoveInstance(i: nat)
      requires Counted() && i < |instances| && instances[i].document == None && instances[i].process == None
      modifies `instances
      ensures Counted() && instances == old(instances)[..i] + old(instances)[i + 1..]
    {
      hide IdsUsed, AppsRight;
      RefsCut(documents, instances, held, i);
      CountsCut(processes, instances, moving, i);
      hide RefsAgree, CountsAgree;
      instances := instances[..i] + instances[i + 1..];
    }

    /** `ApplicationInstanceCreate` */
    method Create(application: nat, document: nat, hasTab: bool, opens: bool, created: bool) returns (started: bool)
      requires Counted() && moving == None && listed == processes.Keys && AllBound()
      requires document != None ==> held == document
      modifies `instances, `processes, `listed, `documents, `applications, `nextID, `moving
      ensures Counted() && moving == None && listed == processes.Keys && AllBound()
              && SamePaths(old(documents), documents)
      ensures |instances| == |old(instances)| + (if started then 1 else 0)
              && instances[..|old(instances)|] == old(instances)
      ensures started == (!inShutdown && !Busy(old(applications), application))
      ensures started ==> Started(instances[|instances| - 1], old(applications), old(processes), desktopPid,
              application, document, opens, created)
    {
      assert 0 < nextID;
      hide Counted;
      var n := |instances|;
      AddInstance(Instance(None, None, None, None, hasTab));
      started := Start(n, application, document, opens, created);
      if !started {
        assert instances == old(instances) + [Instance(None, None, None, None, hasTab)];
        RemoveInstance(n);
        assert instances == old(instances);
      }
    }

    /** `OpenDocumentWithApplication`: the desktop holds the document until the instance has been started. */
    method OpenDocument(path: string, application: nat, fileOpens: bool, opens: bool, created: bool)
      requires Valid()
      modifies `instances, `processes, `listed, `documents, `applications, `nextID, `moving, `currentDocumentID, `held
      ensures Valid()
      ensures |old(instances)| <= |instances| <= |old(instances)| + 1 && instances[..|old(instances)|] == old(instances)
      ensures |instances| > |old(instances)| && instances[|instances| - 1].document != None ==>
                instances[|instances| - 1].document in documents
                  && documents[instances[|instances| - 1].document].path == path
      ensures (fileOpens || exists d :: d in old(documents) && old(documents)[d].path == path) && !inShutdown
              && !Busy(old(applications), application) ==>
                |instances| > |old(instances)| && (instances[|instances| - 1].document == None <==>
                  Redirected(old(applications), application, opens, created))
    {
      hide RefsAgree, CountsAgree, WindowsApart;
      var document: nat;
      if d :| d in documents && documents[d].path == path {
        document := d;
        HoldOpen(d);
      } else {
        if !fileOpens {
          return;
        }
        document := currentDocumentID + 1;
        HoldNew(document, path);
      }
      hide Counted;
      var started := Create(application, document, true, opens, created);
      Release(document);
      if started && instances[|instances| - 1].document != None { HolderOpen(|instances| - 1); }
    }

    lemma HolderOpen(i: nat)
      requires Counted() && i < |instances| && instances[i].document != None
      ensures instances[i].document in documents
    {
      RefsClosed(documents, instances, held, i);
    }

    method HoldOpen(d: nat)
      requires Valid() && d in documents
      modifies `documents, `held
      ensures Counted() && moving == None && listed == processes.Keys && AllBound() && held == d != None
      ensures d in documents && documents[d].path == old(documents)[d].path
    {
      hide CountsAgree, AppsRight, WindowsApart;
      OpenReference(d);
      RefsHeld(old(documents), documents, instances, d);
      held := d;
    }

    method HoldNew(d: nat, path: string)
      requires Valid() && d == currentDocumentID + 1
      modifies `documents, `held, `currentDocumentID
      ensures Counted() && moving == None && listed == processes.Keys && AllBound() && held == d
      ensures d in documents && documents[d].path == path
    {
      hide CountsAgree, AppsRight, WindowsApart;
      assert d !in documents && RefsOf(documents, d) == 0;
      documents := documents[d := Document(path, 1)];
      currentDocumentID := d;
      held := d;
    }

    method Release(document: nat)
      requires Counted() && moving == None && listed == processes.Keys && AllBound() && held == document != None
      modifies `documents, `held
      ensures Valid() && SamePaths(old(documents), documents)
    {
      hide CountsAgree, AppsRight, WindowsApart;
      RefsReleased(documents, instances, held);
      CloseReference(document);
      held := None;
    }

    /**
      * `ApplicationInstanceRequestSave`: an instance without a document gets a new one, if a name is found and the file
      * opens.
      */
    method RequestSave(i: nat, path: string, named: bool, fileOpens: bool)
      requires Valid() && i < |instances|
      modifies `instances, `documents, `currentDocumentID
      ensures Valid()
      ensures if old(instances)[i].document == None && named && fileOpens
              then && currentDocumentID !in old(documents)
                && documents == old(documents)[currentDocumentID := Document(path, 1)]
                   && instances == old(instances)[i := old(instances)[i].(document := currentDocumentID)]
              else unchanged(this)
    {
      hide Counted;
      if instances[i].document == None {
        if !named || !fileOpens {
          return;
        }
        SaveNew(i, path);
      }
    }

    method SaveNew(i: nat, path: string)
      requires Counted() && held == None && i < |instances| && instances[i].document == None
      modifies `instances, `documents, `currentDocumentID
      ensures Counted() && currentDocumentID !in old(documents)
              && documents == old(documents)[currentDocumentID := Document(path, 1)]
      ensures instances == old(instances)[i := old(instances)[i].(document := currentDocumentID)]
    {
      hide AppsRight;
      var id := currentDocumentID + 1;
      var x := instances[i].(document := id);
      assert id !in documents;
      RefsSaved(documents, instances, i, id, Document(path, 1));
      CountsSame(processes, instances, instances[i := x], moving);
      hide RefsAgree, CountsAgree;
      currentDocumentID := id;
      documents := documents[id := Document(path, 1)];
      instances := instances[i := x];
    }

    /**
      * The user-task branch of `DesktopSyscall`: a task is an instance without a tab, bound to the process that asks.
      */
    method StartUserTask(process: nat, resources: bool)
      requires Valid() && process in processes
      modifies `instances, `processes, `nextID, `moving
      ensures Valid()
      ensures instances == if old(processes)[process].instanceCount == 0 || !resources then old(instances)
                           else old(instances) + [Instance(old(nextID), None, process,
                             old(processes)[process].application, false)]
    {
      hide Counted, Recounted;
      if processes[process].instanceCount == 0 || !resources {
        return;
      }
      NoneIsNoProcess();
      var window := TakeID();
      var x := Instance(window, None, process, processes[process].application, false);
      IncrementCount(process);
      AddInstance(x);
    }

    lemma NoneIsNoProcess()
      requires Counted()
      ensures None !in processes
    {
    }

    /** `EmbeddedWindowDestroyed` */
    method WindowDestroyed(window: nat) returns (index: nat)
      requires Counted()
      modifies `instances, `processes, `documents, `applications
      ensures Counted() && processes.Keys == old(processes.Keys)
      ensures index <= |old(instances)|
      ensures if index == |old(instances)|
              then && unchanged(this)
                   && (window != None ==> forall j :: 0 <= j < |instances| ==> instances[j].window != window)
              else && old(instances)[index].window == window
                   && instances == old(instances)[..index] + old(instances)[index + 1..]
      ensures forall j :: 0 <= j < |old(instances)| && old(instances)[j].window == window != None ==> j == index
    {
      WindowsTell(window);
      index := |instances|;
      if window == None {
        return;
      }
      hide Counted;
      var i := 0;
      while i < |instances|
        invariant i <= |instances| == index
        invariant forall j :: 0 <= j < i ==> instances[j].window != window
      {
        if instances[i].window == window {
          index := i;
          ghost var list := instances;
          Cleanup(i);
          RemoveInstance(i);
          assert instances == list[..i] + list[i + 1..];
          return;
        }
        i := i + 1;
      }
    }

    lemma WindowsTell(window: nat)
      requires Counted()
      ensures forall i, j :: 0 <= i < |instances| && 0 <= j < |instances| ==>
                instances[i].window == instances[j].window == window != None ==> i == j
      ensures forall i :: 0 <= i < |instances| && instances[i].process != None ==> instances[i].window != None
    {
    }

    /** Destroying the window of an instance removes that instance, and no other. */
    method DestroyInstance(i: nat)
      requires Counted() && i < |instances| && instances[i].process != None
      modifies `instances, `processes, `documents, `applications
      ensures Counted() && processes.Keys == old(processes.Keys)
              && instances == old(instances)[..i] + old(instances)[i + 1..]
    {
      WindowsTell(instances[i].window);
      hide Counted;
      var index := WindowDestroyed(instances[i].window);
    }

    method Unlist(process: nat)
      requires Counted()
      modifies `listed
      ensures Counted() && listed == old(listed) - {process}
    {
      hide RefsAgree, CountsAgree;
      listed := listed - {process};
    }

    /** An application forgets a process that has crashed or terminated. */
    method DropSingles(application: nat, process: nat)
      requires Counted()
      modifies `applications
      ensures Counted()
      ensures application in applications ==> applications[application].singleProcess != process || process == None
      ensures forall a :: a in applications && a != application ==>
              a in old(applications) && applications[a] == old(applications)[a]
    {
      hide RefsAgree, CountsAgree;
      if application in applications {
        var a := applications[application];
        applications := applications[application := a.(singleInstance := None,
                                                       singleProcess := if a.singleProcess == process then None
                                                         else a.singleProcess)];
      }
    }

    method FreeProcess(process: nat)
      requires Counted() && moving == None && process in processes && listed == processes.Keys - {process}
      requires forall i :: 0 <= i < |instances| ==> instances[i].process != process
      requires forall a :: a in applications && !applications[a].desktopOwned ==>
               applications[a].singleProcess != process
      modifies `processes
      ensures Counted() && processes == old(processes) - {process}
    {
      hide RefsAgree, WindowsApart;
      CountsGone(processes, instances, process);
      hide CountsAgree;
      processes := processes - {process};
    }

    lemma OwnApplication(process: nat)
      requires Counted() && process in processes
      ensures process != None
      ensures forall a :: a in applications && !applications[a].desktopOwned
                          && applications[a].singleProcess == process ==>
                a == processes[process].application
    {
    }

    method DestroyInstances(process: nat)
      requires Counted() && AllBound()
      modifies `instances, `processes, `documents, `applications
      ensures Counted() && AllBound() && processes.Keys == old(processes.Keys)
      ensures instances == Without(old(instances), process)
    {
      hide Counted, Without;
      var i := 0;
      while i < |instances|
        invariant i <= |instances| && Counted() && AllBound() && processes.Keys == old(processes.Keys)
        invariant forall j :: 0 <= j < i ==> instances[j].process != process
        invariant Without(instances, process) == Without(old(instances), process)
        decreases |instances| - i
      {
        if instances[i].process == process {
          WithoutCut(instances, process, i);
          DestroyInstance(i);
        } else {
          i := i + 1;
        }
      }
      WithoutAll(instances, process);
    }

    /** No application is left that would start its next instance in the process. */
    method ForgetProcess(process: nat)
      requires Counted() && process in processes
      modifies `applications
      ensures Counted()
      ensures forall a :: a in applications && !applications[a].desktopOwned ==>
              applications[a].singleProcess != process
    {
      OwnApplication(process);
      hide Counted;
      var application := processes[process].application;
      DropSingles(application, process);
      if application in applications {
        DestroyTemporary(application);
      }
    }

    /** `ApplicationProcessTerminated`: every instance of the process goes, so its last assertion holds. */
    method ProcessTerminated(process: nat)
      requires Valid() && process in processes
      modifies `instances, `processes, `listed, `documents, `applications
      ensures Valid() && processes.Keys == old(processes.Keys) - {process}
      ensures instances == Without(old(instances), process)
    {
      hide Counted, Without;
      Unlist(process);
      DestroyInstances(process);
      WithoutGone(old(instances), process);
      ForgetProcess(process);
      FreeProcess(process);
    }

    /**
      * `ApplicationInstanceCrashed`: the tabs of the process show the crash instead; its user tasks go when it
      * terminates.
      */
    method ProcessCrashed(process: nat)
      requires Valid() && process in processes
      modifies `instances, `processes, `listed, `documents, `applications, `nextID, `moving
      ensures Valid() && |instances| == |old(instances)|
      ensures forall i :: 0 <= i < |instances|
                          && !(old(instances)[i].process == process && old(instances)[i].hasTab) ==>
                instances[i] == old(instances)[i]
      ensures forall i :: 0 <= i < |instances| && !inShutdown && old(instances)[i].process == process
                          && old(instances)[i].hasTab ==>
                instances[i].application == CRASHED && instances[i].process == desktopPid
                  && instances[i].document == None
    {
      hide Counted;
      DropSingles(processes[process].application, process);
      var i := 0;
      while i < |instances|
        invariant i <= |instances| == |old(instances)| && Valid()
        invariant forall j :: 0 <= j < |instances|
                              && (i <= j || !(old(instances)[j].process == process && old(instances)[j].hasTab)) ==>
                    instances[j] == old(instances)[j]
        invariant forall j :: 0 <= j < i && !inShutdown && old(instances)[j].process == process
                              && old(instances)[j].hasTab ==>
                    instances[j].application == CRASHED && instances[j].process == desktopPid
                      && instances[j].document == None
      {
        CrashedTab();
        if instances[i].process == process && instances[i].hasTab {
          var started := Start(i, CRASHED, None, false, false);
        }
        i := i + 1;
      }
    }
  }
}
