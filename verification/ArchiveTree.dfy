/** What extraction means: the tree an archive unfolds to, independent of any budget, and the
    theorems that tie the budgeted extraction to it. */
module ArchiveTree {
  import opened Basics
  import opened Wrappers
  import opened ArchiveFormats
  import opened ArchiveInspector

  /** TooDeep lies below the depth limit; Refused is a 7z archive with an unsafe name. */
  datatype Tree =
    Leaf(content: Bytes, name: string) | TooDeep | Refused | Archive(name: string, entries: Forest)

  /** The members of one archive, up to an exception if there is one. A flaw is only recorded; a
      probe is checked against the budgets but yields no data; entries of single-stream formats are
      not `listed`: the file budget ignores them. */
  datatype Forest =
    | End
    | Failed
    | Flaw(problem: Problem, rest: Forest)
    | Probe(need: nat, heavy: bool, rest: Forest)
    | Entry(listed: bool, need: nat, heavy: bool, size: nat, tree: Tree, rest: Forest)

  /** More than maxRatio bytes for every compressed byte. */
  predicate Dense(l: Limits, compressed: nat, uncompressed: nat) {
    compressed != 0 && uncompressed as real > l.maxRatio * compressed as real
  }

  /** Which is what the division tests. */
  lemma DenseIffOverRatio(l: Limits, compressed: nat, uncompressed: nat)
    ensures OverRatio(l, compressed, uncompressed) <==> Dense(l, compressed, uncompressed)
  {
    if compressed > 0 {
      var x, y := compressed as real, uncompressed as real;
      assert y / x * x == y;
      if y / x > l.maxRatio {
        assert (y / x - l.maxRatio) * x > 0.0;
      } else {
        assert (l.maxRatio - y / x) * x >= 0.0;
      }
    }
  }

  function Heavy(l: Limits, f: Format, m: Member): bool {
    (f.Zip? || f.Rar?) && Dense(l, m.compressed, m.declared)
  }

  /** The size a member is checked for before it is read. */
  function Need(f: Format, m: Member): nat {
    if !f.SevenZip? then m.declared else if m.payload.Data? then |m.payload.data| else 0
  }

  /** The one entry of a single-stream format. */
  function Stream(l: Limits, content: Bytes, d: Bytes, tree: Tree): Forest {
    Entry(false, |d|, Dense(l, |content|, |d|), |d|, tree, End)
  }

  function Unfold(c: Codec, l: Limits, content: Bytes, name: string, depth: nat): Tree
    decreases Max0(l.maxDepth + 1 - depth), 2
  {
    if depth > l.maxDepth then TooDeep
    else
      match IsArchive(name, content)
      case None => Leaf(content, name)
      case Some(f) =>
        if f.TarBz2? then Archive(name, Flaw(Unsupported, End))
        else if IsStream(f) then
          match c.inflate(f, content)
          case None => Archive(name, Failed)
          case Some(d) =>
            Archive(name, Stream(l, content, d, Unfold(c, l, d, InnerName(f, name), depth + 1)))
        else
          match Opening(c, f, c.list(f, content))
          case Raised => Archive(name, Failed)
          case Aborted(_) => Refused
          case Done => Archive(name, UnfoldMembers(c, l, f, c.list(f, content).members, depth))
  }

  function UnfoldMembers(c: Codec, l: Limits, f: Format, members: seq<Member>, depth: nat): Forest
    requires depth <= l.maxDepth
    decreases Max0(l.maxDepth + 1 - depth), 1, |members|
  {
    if members == [] then End
    else
      var m := members[0];
      var rest := UnfoldMembers(c, l, f, members[1..], depth);
      if f.Tar? && m.link then Flaw(LinkSkipped(m.name), rest)
      else if m.skipped then rest
      else if !SafeName(m.name, c.blank) then
        var flaw := Flaw(BadName(m.name), rest);
        if f.SevenZip? then Probe(0, false, flaw) else flaw
      else if f.Tar? && m.payload.NoStream? then Probe(Need(f, m), false, rest)
      else
        match m.payload
        case Data(d) =>
          Entry(true, Need(f, m), Heavy(l, f, m), |d|, Unfold(c, l, d, BaseName(m.name), depth + 1), rest)
        case _ => Probe(Need(f, m), Heavy(l, f, m), Failed)
  }

  // ----- what a tree holds and what it costs -----------------------------------------------

  function Leaves(t: Tree): seq<(Bytes, string)> {
    match t
    case Leaf(content, name) => [(content, name)]
    case Archive(_, entries) => ForestLeaves(entries)
    case _ => []
  }

  function ForestLeaves(f: Forest): seq<(Bytes, string)> {
    match f
    case End => []
    case Failed => []
    case Flaw(_, rest) => ForestLeaves(rest)
    case Probe(_, _, rest) => ForestLeaves(rest)
    case Entry(_, _, _, _, tree, rest) => Leaves(tree) + ForestLeaves(rest)
  }

  /** What is recorded on the way: flaws, files that cannot be inspected, and archives that an
      exception ended. */
  function Problems(c: Codec, t: Tree): seq<Problem> {
    match t
    case Leaf(content, name) => if c.inspect(content, name).None? then [InspectFailed(name)] else []
    case Archive(name, entries) =>
      ForestProblems(c, entries) + if Fails(entries) then [ExtractFailed(name)] else []
    case _ => []
  }

  function ForestProblems(c: Codec, f: Forest): seq<Problem> {
    match f
    case End => []
    case Failed => []
    case Flaw(problem, rest) => [problem] + ForestProblems(c, rest)
    case Probe(_, _, rest) => ForestProblems(c, rest)
    case Entry(_, _, _, _, tree, rest) => Problems(c, tree) + ForestProblems(c, rest)
  }

  predicate Fails(f: Forest) {
    match f
    case End => false
    case Failed => true
    case Flaw(_, rest) => Fails(rest)
    case Probe(_, _, rest) => Fails(rest)
    case Entry(_, _, _, _, _, rest) => Fails(rest)
  }

  function Count(t: Tree): nat { if t.Archive? then ForestCount(t.entries) else 0 }

  function ForestCount(f: Forest): nat {
    match f
    case End => 0
    case Failed => 0
    case Flaw(_, rest) => ForestCount(rest)
    case Probe(_, _, rest) => ForestCount(rest)
    case Entry(_, _, _, _, tree, rest) => 1 + Count(tree) + ForestCount(rest)
  }

  function Size(t: Tree): nat { if t.Archive? then ForestSize(t.entries) else 0 }

  function ForestSize(f: Forest): nat {
    match f
    case End => 0
    case Failed => 0
    case Flaw(_, rest) => ForestSize(rest)
    case Probe(_, _, rest) => ForestSize(rest)
    case Entry(_, _, _, size, tree, rest) => size + Size(tree) + ForestSize(rest)
  }

  /** Something in the tree is refused whatever the size and file budgets. */
  predicate Blocked(t: Tree) {
    match t
    case Leaf(_, _) => false
    case Archive(_, entries) => ForestBlocked(entries)
    case _ => true
  }

  predicate ForestBlocked(f: Forest) {
    match f
    case End => false
    case Failed => false
    case Flaw(_, rest) => ForestBlocked(rest)
    case Probe(_, heavy, rest) => heavy || ForestBlocked(rest)
    case Entry(_, _, heavy, _, tree, rest) => heavy || Blocked(tree) || ForestBlocked(rest)
  }

  /** The file budget a tree needs: the position of its last listed member, 0 for none. */
  function FileNeed(t: Tree): nat { if t.Archive? then ForestFileNeed(t.entries) else 0 }

  function ForestFileNeed(f: Forest): nat {
    match f
    case End => 0
    case Failed => 0
    case Flaw(_, rest) => ForestFileNeed(rest)
    case Probe(_, _, rest) => Max(1, ForestFileNeed(rest))
    case Entry(listed, _, _, _, tree, rest) =>
      Max(if listed then 1 else 0,
          Max(After(1, FileNeed(tree)), After(1 + Count(tree), ForestFileNeed(rest))))
  }

  function After(before: nat, need: nat): nat { if need == 0 then 0 else before + need }

  /** The byte budget a tree needs: the most it has to be allowed at any check. */
  function ByteNeed(t: Tree): nat { if t.Archive? then ForestByteNeed(t.entries) else 0 }

  function ForestByteNeed(f: Forest): nat {
    match f
    case End => 0
    case Failed => 0
    case Flaw(_, rest) => ForestByteNeed(rest)
    case Probe(need, _, rest) => Max(need, ForestByteNeed(rest))
    case Entry(_, need, _, size, tree, rest) =>
      Max(need, Max(size + ByteNeed(tree), size + Size(tree) + ForestByteNeed(rest)))
  }

  predicate Affordable(l: Limits, p: Progress, blocked: bool, files: nat, bytes: nat) {
    && !blocked
    && (files == 0 || p.totalFiles + files <= l.maxFiles)
    && p.totalBytes + bytes <= l.maxTotalSize
  }

  /** FileInspector's components for a list of leaves, in order; a leaf it cannot read has none. */
  function Inspected(c: Codec, leaves: seq<(Bytes, string)>): seq<Component> {
    if leaves == [] then []
    else c.inspect(leaves[0].0, leaves[0].1).GetOr([]) + Inspected(c, leaves[1..])
  }

  lemma {:induction false} InspectedConcat(c: Codec, a: seq<(Bytes, string)>, b: seq<(Bytes, string)>)
    ensures Inspected(c, a + b) == Inspected(c, a) + Inspected(c, b)
  {
    if a == [] {
      assert a + b == b;
    } else {
      InspectedConcat(c, a[1..], b);
      assert (a + b)[1..] == a[1..] + b;
    }
  }

  /** Containers never hand out more bytes than the member header declares. */
  ghost predicate HonestSizes(c: Codec) {
    forall f, content, m :: c.list(f, content).Members? && m in c.list(f, content).members && m.payload.Data?
      ==> |m.payload.data| <= m.declared
  }

  ghost predicate HonestMembers(members: seq<Member>) {
    forall m :: m in members && m.payload.Data? ==> |m.payload.data| <= m.declared
  }

  // ----- extraction yields the leaves, in order --------------------------------------------

  /** What a run over a tree or a forest has to bring forth. */
  datatype Yield = Yield(leaves: seq<(Bytes, string)>, problems: seq<Problem>, count: nat, size: nat) {
    function Then(y: Yield): Yield {
      Yield(leaves + y.leaves, problems + y.problems, count + y.count, size + y.size)
    }
  }

  function TreeYield(c: Codec, t: Tree): Yield { Yield(Leaves(t), Problems(c, t), Count(t), Size(t)) }

  function ForestYield(c: Codec, f: Forest): Yield {
    Yield(ForestLeaves(f), ForestProblems(c, f), ForestCount(f), ForestSize(f))
  }

  /** What taking an entry counts before its own extraction. */
  function Counted(t: Taken): Yield { Yield([], [], 1, t.size) }

  /** From p to r: the components of the leaves and the problems, all of them and in order, unless a
      safety error cut the run short, and then a beginning of each; likewise the two counters. */
  ghost predicate Yields(c: Codec, p: Progress, r: (Progress, Outcome), y: Yield) {
    && p.components <= r.0.components <= p.components + Inspected(c, y.leaves)
    && p.errors <= r.0.errors <= p.errors + y.problems
    && p.totalFiles <= r.0.totalFiles <= p.totalFiles + y.count
    && p.totalBytes <= r.0.totalBytes <= p.totalBytes + y.size
    && (!r.1.Aborted? ==>
         && r.0.components == p.components + Inspected(c, y.leaves)
         && r.0.errors == p.errors + y.problems
         && r.0.totalFiles == p.totalFiles + y.count
         && r.0.totalBytes == p.totalBytes + y.size)
  }

  /** A run that was cut short also is the beginning of a longer one. */
  lemma YieldsCut(c: Codec, p: Progress, r: (Progress, Outcome), y: Yield, rest: Yield)
    requires Yields(c, p, r, y) && r.1.Aborted?
    ensures Yields(c, p, r, y.Then(rest))
  {
    InspectedConcat(c, y.leaves, rest.leaves);
    assert p.errors + y.problems + rest.problems == p.errors + (y.problems + rest.problems);
    assert p.components + Inspected(c, y.leaves) + Inspected(c, rest.leaves)
        == p.components + (Inspected(c, y.leaves) + Inspected(c, rest.leaves));
  }

  lemma YieldsThen(c: Codec, p: Progress, mid: Progress, r: (Progress, Outcome), y: Yield, rest: Yield)
    requires Yields(c, p, (mid, Done), y) && Yields(c, mid, r, rest)
    ensures Yields(c, p, r, y.Then(rest))
  {
    hide Inspected;
    InspectedConcat(c, y.leaves, rest.leaves);
    assert p.errors + y.problems + rest.problems == p.errors + (y.problems + rest.problems);
    assert p.components + Inspected(c, y.leaves) + Inspected(c, rest.leaves)
        == p.components + (Inspected(c, y.leaves) + Inspected(c, rest.leaves));
  }

  lemma YieldsTaken(c: Codec, p: Progress, t: Taken)
    ensures Yields(c, p, (p.Add(t), Done), Counted(t))
  {
    assert p.components + [] == p.components && p.errors + [] == p.errors;
  }

  lemma YieldsFlaw(c: Codec, p: Progress, problem: Problem)
    ensures Yields(c, p, (p.Error(problem), Done), Yield([], [problem], 0, 0))
  {
    assert p.components + [] == p.components;
  }

  lemma YieldsNothing(c: Codec, p: Progress, o: Outcome)
    ensures Yields(c, p, (p, o), Yield([], [], 0, 0))
  {
    assert p.components + [] == p.components && p.errors + [] == p.errors;
  }

  lemma {:induction false} ExtractYields(c: Codec, l: Limits, p: Progress, content: Bytes, name: string, depth: nat)
    ensures Yields(c, p, Extract(c, l, p, content, name, depth), TreeYield(c, Unfold(c, l, content, name, depth)))
    decreases Max0(l.maxDepth + 1 - depth), 3
  {
    hide IsArchive, SafeName, BaseName, InnerName, OverRatio, Dense, Yields, TreeYield, ForestYield;
    var q := p.(calls := p.calls + 1);
    if depth > l.maxDepth {
      YieldsCallOnly(c, p, MaxDepth);
    } else {
      match IsArchive(name, content)
      case None => LeafYields(c, p, content, name);
      case Some(f) =>
        var r := Unpack(c, l, f, q, content, name, depth);
        var t := Unfold(c, l, content, name, depth);
        if t.Refused? {
          assert r == (q, Aborted(PathTraversal));
          YieldsCallOnly(c, p, PathTraversal);
        } else {
          UnpackYields(c, l, f, q, content, name, depth);
          ArchiveYields(c, p, r, name, t.entries);
        }
    }
  }

  lemma YieldsCallOnly(c: Codec, p: Progress, e: SafetyError)
    ensures Yields(c, p, (p.(calls := p.calls + 1), Aborted(e)), TreeYield(c, TooDeep))
    ensures TreeYield(c, Refused) == TreeYield(c, TooDeep)
  {
    assert p.components + [] == p.components && p.errors + [] == p.errors;
  }

  lemma LeafYields(c: Codec, p: Progress, content: Bytes, name: string)
    ensures Yields(c, p, (InspectFile(c, p.(calls := p.calls + 1), content, name), Done),
                   TreeYield(c, Leaf(content, name)))
  {
    assert Inspected(c, [(content, name)]) == c.inspect(content, name).GetOr([]);
    assert p.components + [] == p.components && p.errors + [] == p.errors;
  }

  /** An archive that an exception ended adds its own problem after those of its members. */
  lemma ArchiveYields(c: Codec, p: Progress, r: (Progress, Outcome), name: string, f: Forest)
    requires Yields(c, p.(calls := p.calls + 1), r, ForestYield(c, f))
    requires !r.1.Aborted? ==> (r.1.Raised? <==> Fails(f))
    ensures Yields(c, p, if r.1.Raised? then (r.0.Error(ExtractFailed(name)), Done) else r,
                   TreeYield(c, Archive(name, f)))
  {
    hide Inspected, ForestLeaves, ForestProblems, ForestCount, ForestSize, Fails;
    var own := ForestProblems(c, f);
    var t := Archive(name, f);
    assert Leaves(t) == ForestLeaves(f) && Count(t) == ForestCount(f) && Size(t) == ForestSize(f);
    if Fails(f) {
      assert p.errors + own + [ExtractFailed(name)] == p.errors + (own + [ExtractFailed(name)]);
    } else {
      assert own + [] == own;
    }
  }

  lemma {:induction false} UnpackYields(
    c: Codec, l: Limits, f: Format, p: Progress, content: Bytes, name: string, depth: nat)
    requires depth <= l.maxDepth && IsArchive(name, content) == Some(f)
    requires Unfold(c, l, content, name, depth).Archive?
    ensures var r := Unpack(c, l, f, p, content, name, depth);
      var entries := Unfold(c, l, content, name, depth).entries;
      Yields(c, p, r, ForestYield(c, entries)) && (!r.1.Aborted? ==> (r.1.Raised? <==> Fails(entries)))
    decreases Max0(l.maxDepth + 1 - depth), 2
  {
    hide IsArchive, SafeName, BaseName, InnerName, OverRatio, Dense, Yields;
    EndYields(c);
    if f.TarBz2? {
      YieldsFlaw(c, p, Unsupported);
    } else if IsStream(f) && c.inflate(f, content).Some? {
      StreamYields(c, l, f, p, content, name, depth);
    } else if IsStream(f) || !Opening(c, f, c.list(f, content)).Done? {
      YieldsNothing(c, p, Raised);
    } else {
      MembersYield(c, l, f, p, c.list(f, content).members, depth);
    }
  }

  lemma EndYields(c: Codec)
    ensures ForestYield(c, End) == Yield([], [], 0, 0) == ForestYield(c, Failed)
    ensures ForestYield(c, Flaw(Unsupported, End)) == Yield([], [Unsupported], 0, 0)
    ensures !Fails(Flaw(Unsupported, End)) && Fails(Failed)
  {
    assert ForestProblems(c, Flaw(Unsupported, End)) == [Unsupported] + ForestProblems(c, End);
  }

  lemma {:induction false} StreamYields(
    c: Codec, l: Limits, f: Format, p: Progress, content: Bytes, name: string, depth: nat)
    requires depth <= l.maxDepth && IsStream(f) && c.inflate(f, content).Some?
    ensures var d := c.inflate(f, content).value;
      var entries := Stream(l, content, d, Unfold(c, l, d, InnerName(f, name), depth + 1));
      var r := Unpack(c, l, f, p, content, name, depth);
      Yields(c, p, r, ForestYield(c, entries)) && !r.1.Raised? && !Fails(entries)
    decreases Max0(l.maxDepth + 1 - depth), 1
  {
    hide IsArchive, SafeName, BaseName, InnerName, OverRatio, Dense, Unfold, Inspected, Yields, Extract;
    var d := c.inflate(f, content).value;
    var tree := Unfold(c, l, d, InnerName(f, name), depth + 1);
    var t := FromStream(f, content, d);
    ExtractYields(c, l, p.Add(t), d, InnerName(f, name), depth + 1);
    EntryYield(c, Stream(l, content, d, tree), t);
    EndYields(c);
    var r := Unpack(c, l, f, p, content, name, depth);
    var r1 := Extract(c, l, p.Add(t), d, InnerName(f, name), depth + 1);
    if r == r1 {
      EntryYields(c, p, t, r, tree, End);
      if r.1.Done? {
        YieldsNothing(c, r.0, Done);
        YieldsThen(c, p, r.0, r, Counted(t).Then(TreeYield(c, tree)), ForestYield(c, End));
      }
    } else {
      YieldsNothing(c, p, r.1);
      YieldsCut(c, p, r, Yield([], [], 0, 0), ForestYield(c, Stream(l, content, d, tree)));
      NothingThen(ForestYield(c, Stream(l, content, d, tree)));
    }
  }

  lemma NothingThen(y: Yield)
    ensures Yield([], [], 0, 0).Then(y) == y
  {
  }

  lemma EntryYield(c: Codec, e: Forest, t: Taken)
    requires e.Entry? && t.size == e.size
    ensures ForestYield(c, e) == Counted(t).Then(TreeYield(c, e.tree)).Then(ForestYield(c, e.rest))
  {
    hide Leaves, Problems, Count, Size;
    assert [] + Leaves(e.tree) == Leaves(e.tree) && [] + Problems(c, e.tree) == Problems(c, e.tree);
  }

  /** Taking one member: its own extraction, and then, unless it was cut short, the others. */
  lemma EntryYields(c: Codec, p: Progress, t: Taken, r: (Progress, Outcome), tree: Tree, rest: Forest)
    requires Yields(c, p.Add(t), r, TreeYield(c, tree))
    ensures Yields(c, p, r, Counted(t).Then(TreeYield(c, tree)))
    ensures r.1.Aborted? ==> Yields(c, p, r, Counted(t).Then(TreeYield(c, tree)).Then(ForestYield(c, rest)))
  {
    hide Yields, TreeYield, ForestYield;
    YieldsTaken(c, p, t);
    YieldsThen(c, p, p.Add(t), r, Counted(t), TreeYield(c, tree));
    if r.1.Aborted? {
      YieldsCut(c, p, r, Counted(t).Then(TreeYield(c, tree)), ForestYield(c, rest));
    }
  }

  predicate Lists(f: Format) { !IsStream(f) && !f.TarBz2? }

  predicate Passes(l: Limits, p: Progress, need: nat, heavy: bool) {
    p.totalFiles < l.maxFiles && !heavy && p.totalBytes + need <= l.maxTotalSize
  }

  /** The loop's verdict on its first member, in terms of the forest the members unfold to. */
  predicate Shaped(c: Codec, l: Limits, f: Format, p: Progress, members: seq<Member>, depth: nat)
    requires depth <= l.maxDepth && members != []
  {
    var t := UnfoldMembers(c, l, f, members, depth);
    var rest := UnfoldMembers(c, l, f, members[1..], depth);
    var m := members[0];
    match Judge(c, l, f, p, m)
    case Skip(p') => Skips(l, p, p', t, rest)
    case Take(d) =>
      && t == Entry(true, Need(f, m), Heavy(l, f, m), |d|, Unfold(c, l, d, BaseName(m.name), depth + 1), rest)
      && Passes(l, p, t.need, t.heavy)
      && (m.payload.Data? && (|m.payload.data| <= m.declared ==> |d| <= t.need))
    case Halt(o) =>
      if o.Aborted? then
        (t.Probe? || (t.Entry? && t.listed)) && !Passes(l, p, t.need, t.heavy)
      else
        && o.Raised? && t.Probe? && t.rest == Failed
        && (p.totalBytes <= l.maxTotalSize ==> Passes(l, p, t.need, t.heavy))
  }

  lemma JudgeShape(c: Codec, l: Limits, f: Format, p: Progress, members: seq<Member>, depth: nat)
    requires depth <= l.maxDepth && members != [] && Lists(f)
    ensures Shaped(c, l, f, p, members, depth)
  {
    hide Shaped;
    if f.Tar? {
      JudgeTar(c, l, f, p, members, depth);
    } else if f.SevenZip? {
      JudgeSevenZip(c, l, f, p, members, depth);
    } else {
      JudgePacked(c, l, f, p, members, depth);
    }
  }

  lemma JudgeTar(c: Codec, l: Limits, f: Format, p: Progress, members: seq<Member>, depth: nat)
    requires depth <= l.maxDepth && members != [] && f.Tar?
    ensures Shaped(c, l, f, p, members, depth)
  {
    hide SafeName, BaseName, OverRatio, Dense, Unfold;
  }

  lemma JudgeSevenZip(c: Codec, l: Limits, f: Format, p: Progress, members: seq<Member>, depth: nat)
    requires depth <= l.maxDepth && members != [] && f.SevenZip?
    ensures Shaped(c, l, f, p, members, depth)
  {
    hide SafeName, BaseName, OverRatio, Dense, Unfold;
  }

  lemma JudgePacked(c: Codec, l: Limits, f: Format, p: Progress, members: seq<Member>, depth: nat)
    requires depth <= l.maxDepth && members != [] && (f.Zip? || f.Rar?)
    ensures Shaped(c, l, f, p, members, depth)
  {
    hide SafeName, BaseName, OverRatio, Dense, Unfold;
    DenseIffOverRatio(l, members[0].compressed, members[0].declared);
  }

  /** A member passed over: without trace, as a flaw, or after a check it passed. */
  predicate Skips(l: Limits, p: Progress, p': Progress, t: Forest, rest: Forest) {
    || (t == rest && p' == p)
    || (t.Flaw? && t.rest == rest && p' == p.Error(t.problem))
    || (t.Probe? && (p.totalBytes <= l.maxTotalSize ==> Passes(l, p, t.need, t.heavy))
        && ((t.rest == rest && p' == p)
            || (t.rest.Flaw? && t.rest.rest == rest && p' == p.Error(t.rest.problem))))
  }

  lemma {:induction false} MembersYield(c: Codec, l: Limits, f: Format, p: Progress, members: seq<Member>, depth: nat)
    requires depth <= l.maxDepth && Lists(f)
    ensures var t := UnfoldMembers(c, l, f, members, depth);
      var r := ExtractMembers(c, l, f, p, members, depth);
      Yields(c, p, r, ForestYield(c, t)) && (!r.1.Aborted? ==> (r.1.Raised? <==> Fails(t)))
    decreases Max0(l.maxDepth + 1 - depth), 1, |members|
  {
    hide SafeName, BaseName, OverRatio, Dense, Unfold, Extract, Inspected, Yields, Judge, Heavy, Need, ForestYield,
      TreeYield, Skips, Passes, UnfoldMembers;
    if members == [] {
      EndYields(c);
      YieldsNothing(c, p, Done);
      UnfoldNone(c, l, f, depth);
    } else {
      var m := members[0];
      var t := UnfoldMembers(c, l, f, members, depth);
      var rest := UnfoldMembers(c, l, f, members[1..], depth);
      JudgeShape(c, l, f, p, members, depth);
      match Judge(c, l, f, p, m)
      case Skip(p') =>
        MembersYield(c, l, f, p', members[1..], depth);
        SkipYields(c, l, p, p', ExtractMembers(c, l, f, p', members[1..], depth), t, rest);
      case Halt(o) =>
        HaltYields(c, p, o, t);
      case Take(d) =>
        var taken := FromMember(f, m, d);
        var r := Extract(c, l, p.Add(taken), d, BaseName(m.name), depth + 1);
        ExtractYields(c, l, p.Add(taken), d, BaseName(m.name), depth + 1);
        EntryYield(c, t, taken);
        EntryYields(c, p, taken, r, t.tree, rest);
        if r.1.Done? {
          MembersYield(c, l, f, r.0, members[1..], depth);
          var r2 := ExtractMembers(c, l, f, r.0, members[1..], depth);
          YieldsThen(c, p, r.0, r2, Counted(taken).Then(TreeYield(c, t.tree)), ForestYield(c, rest));
        }
    }
  }

  lemma UnfoldNone(c: Codec, l: Limits, f: Format, depth: nat)
    requires depth <= l.maxDepth
    ensures UnfoldMembers(c, l, f, [], depth) == End
  {
  }

  /** Skipping a member may record a problem but moves nothing else. */
  lemma SkipYields(
    c: Codec, l: Limits, p: Progress, p': Progress, r: (Progress, Outcome), t: Forest, rest: Forest)
    requires Skips(l, p, p', t, rest) && Yields(c, p', r, ForestYield(c, rest))
    ensures Yields(c, p, r, ForestYield(c, t)) && (Fails(t) <==> Fails(rest))
  {
    hide Yields, Passes;
    if p' != p {
      var flaw := if t.Flaw? then t else t.rest;
      YieldsFlaw(c, p, flaw.problem);
      YieldsThen(c, p, p', r, Yield([], [flaw.problem], 0, 0), ForestYield(c, rest));
      FlawYield(c, flaw);
    }
  }

  lemma FlawYield(c: Codec, f: Forest)
    requires f.Flaw?
    ensures ForestYield(c, f) == Yield([], [f.problem], 0, 0).Then(ForestYield(c, f.rest))
  {
  }

  lemma HaltYields(c: Codec, p: Progress, o: Outcome, f: Forest)
    requires o.Aborted? || (o.Raised? && f.Probe? && f.rest == Failed)
    ensures Yields(c, p, (p, o), ForestYield(c, f)) && (o.Raised? ==> Fails(f))
  {
    hide Yields, ForestYield;
    YieldsNothing(c, p, o);
    if o.Aborted? {
      YieldsCut(c, p, (p, o), Yield([], [], 0, 0), ForestYield(c, f));
      NothingThen(ForestYield(c, f));
    } else {
      EndYields(c);
      ProbeYield(c, f);
    }
  }

  lemma ProbeYield(c: Codec, f: Forest)
    requires f.Probe?
    ensures ForestYield(c, f) == ForestYield(c, f.rest) && (Fails(f) <==> Fails(f.rest))
  {
  }

  // ----- no abort exactly when the tree is affordable --------------------------------------

  predicate TreeAffordable(l: Limits, p: Progress, t: Tree) {
    Affordable(l, p, Blocked(t), FileNeed(t), ByteNeed(t))
  }

  predicate ForestAffordable(l: Limits, p: Progress, f: Forest) {
    Affordable(l, p, ForestBlocked(f), ForestFileNeed(f), ForestByteNeed(f))
  }

  lemma AffordProbe(l: Limits, p: Progress, need: nat, heavy: bool, rest: Forest)
    ensures ForestAffordable(l, p, Probe(need, heavy, rest))
       <==> Passes(l, p, need, heavy) && ForestAffordable(l, p, rest)
  {
  }

  lemma AffordEnd(l: Limits, p: Progress)
    ensures ForestAffordable(l, p, End) <==> p.totalBytes <= l.maxTotalSize
    ensures ForestAffordable(l, p, Failed) <==> p.totalBytes <= l.maxTotalSize
  {
  }

  lemma AffordFlaw(l: Limits, p: Progress, f: Forest)
    requires f.Flaw?
    ensures ForestAffordable(l, p, f) <==> ForestAffordable(l, p, f.rest)
  {
  }

  /** An entry is affordable if it passes, its tree is, and so are the members after it. */
  lemma AffordEntry(l: Limits, p: Progress, e: Forest, taken: Taken, mid: Progress)
    requires e.Entry? && e.size <= e.need && taken.size == e.size
    requires mid.totalFiles == p.totalFiles + 1 + Count(e.tree)
    requires mid.totalBytes == p.totalBytes + e.size + Size(e.tree)
    ensures ForestAffordable(l, p, e) <==>
      && (if e.listed then Passes(l, p, e.need, e.heavy) else !e.heavy && p.totalBytes + e.need <= l.maxTotalSize)
      && TreeAffordable(l, p.Add(taken), e.tree)
      && mid.totalBytes <= l.maxTotalSize
      && ForestAffordable(l, mid, e.rest)
  {
  }

  /** What an extraction that is not cut short leaves, and that it stays within the byte budget. */
  ghost predicate Fits(l: Limits, r: (Progress, Outcome), affordable: bool) {
    (!r.1.Aborted? <==> affordable) && r.0.totalBytes <= l.maxTotalSize
  }

  lemma {:induction false} ExtractAffordable(c: Codec, l: Limits, p: Progress, content: Bytes, name: string, depth: nat)
    requires HonestSizes(c) && p.totalBytes <= l.maxTotalSize
    ensures Fits(l, Extract(c, l, p, content, name, depth), TreeAffordable(l, p, Unfold(c, l, content, name, depth)))
    decreases Max0(l.maxDepth + 1 - depth), 3
  {
    hide IsArchive, SafeName, BaseName, InnerName, OverRatio;
    if depth <= l.maxDepth {
      var q := p.(calls := p.calls + 1);
      match IsArchive(name, content)
      case None =>
      case Some(f) =>
        if !f.TarBz2? && IsStream(f) {
          StreamAffordable(c, l, f, q, content, name, depth);
          ArchiveAffords(l, p, q, Unfold(c, l, content, name, depth));
        } else if !f.TarBz2? && Opening(c, f, c.list(f, content)).Done? {
          MembersAffordable(c, l, f, q, c.list(f, content).members, depth);
          ArchiveAffords(l, p, q, Unfold(c, l, content, name, depth));
        } else {
          ArchiveAffords(l, p, q, Unfold(c, l, content, name, depth));
        }
    }
  }

  lemma ArchiveAffords(l: Limits, p: Progress, q: Progress, t: Tree)
    requires p.totalFiles == q.totalFiles && p.totalBytes == q.totalBytes <= l.maxTotalSize
    ensures t.Archive? ==> (TreeAffordable(l, p, t) <==> ForestAffordable(l, q, t.entries))
    ensures t.Archive? && t.entries == Failed ==> TreeAffordable(l, p, t)
    ensures t.Archive? && t.entries == Flaw(Unsupported, End) ==> TreeAffordable(l, p, t)
    ensures t.Refused? ==> !TreeAffordable(l, p, t)
  {
    AffordEnd(l, p);
    AffordFlaw(l, p, Flaw(Unsupported, End));
  }

  lemma {:induction false} StreamAffordable(
    c: Codec, l: Limits, f: Format, p: Progress, content: Bytes, name: string, depth: nat)
    requires HonestSizes(c) && p.totalBytes <= l.maxTotalSize
    requires depth <= l.maxDepth && IsStream(f)
    ensures c.inflate(f, content).Some? ==>
      var d := c.inflate(f, content).value;
      var tree := Unfold(c, l, d, InnerName(f, name), depth + 1);
      Fits(l, Unpack(c, l, f, p, content, name, depth), ForestAffordable(l, p, Stream(l, content, d, tree)))
    decreases Max0(l.maxDepth + 1 - depth), 2
  {
    hide IsArchive, SafeName, BaseName, InnerName, OverRatio, Dense, Unfold, Extract, Affordable;
    if c.inflate(f, content).Some? {
      var d := c.inflate(f, content).value;
      var inner := InnerName(f, name);
      var tree := Unfold(c, l, d, inner, depth + 1);
      var taken := FromStream(f, content, d);
      var mid := p.(totalFiles := p.totalFiles + 1 + Count(tree), totalBytes := p.totalBytes + |d| + Size(tree));
      DenseIffOverRatio(l, |content|, |d|);
      AffordEntry(l, p, Stream(l, content, d, tree), taken, mid);
      AffordEnd(l, mid);
      if p.totalBytes + |d| <= l.maxTotalSize {
        ExtractAffordable(c, l, p.Add(taken), d, inner, depth + 1);
        ExtractYields(c, l, p.Add(taken), d, inner, depth + 1);
      }
    }
  }

  lemma {:induction false} MembersAffordable(
    c: Codec, l: Limits, f: Format, p: Progress, members: seq<Member>, depth: nat)
    requires HonestSizes(c) && HonestMembers(members) && p.totalBytes <= l.maxTotalSize
    requires depth <= l.maxDepth && Lists(f)
    ensures Fits(l, ExtractMembers(c, l, f, p, members, depth),
                 ForestAffordable(l, p, UnfoldMembers(c, l, f, members, depth)))
    decreases Max0(l.maxDepth + 1 - depth), 1, |members|, 1
  {
    hide SafeName, BaseName, OverRatio, Dense, Unfold, Extract, Judge, Heavy, Need, Affordable, Skips;
    if members == [] {
      AffordEnd(l, p);
    } else {
      var m := members[0];
      var t := UnfoldMembers(c, l, f, members, depth);
      var rest := UnfoldMembers(c, l, f, members[1..], depth);
      JudgeShape(c, l, f, p, members, depth);
      match Judge(c, l, f, p, m)
      case Skip(p') =>
        SkipKeepsBudget(l, p, p', t, rest);
        MembersAffordable(c, l, f, p', members[1..], depth);
        SkipAffords(l, p, p', t, rest);
      case Halt(o) =>
        HaltAffords(l, p, t);
      case Take(d) =>
        TakeAffordable(c, l, f, p, members, depth, d);
    }
  }

  lemma {:induction false} TakeAffordable(
    c: Codec, l: Limits, f: Format, p: Progress, members: seq<Member>, depth: nat, d: Bytes)
    requires HonestSizes(c) && HonestMembers(members) && p.totalBytes <= l.maxTotalSize
    requires depth <= l.maxDepth && Lists(f) && members != []
    requires Judge(c, l, f, p, members[0]) == Take(d)
    ensures Fits(l, ExtractMembers(c, l, f, p, members, depth),
                 ForestAffordable(l, p, UnfoldMembers(c, l, f, members, depth)))
    decreases Max0(l.maxDepth + 1 - depth), 1, |members|, 0
  {
    hide SafeName, BaseName, OverRatio, Dense, Unfold, UnfoldMembers, Extract, Judge, Heavy, Need, Affordable;
    var name := BaseName(members[0].name);
    var t := UnfoldMembers(c, l, f, members, depth);
    var taken := FromMember(f, members[0], d);
    JudgeShape(c, l, f, p, members, depth);
    var r := Extract(c, l, p.Add(taken), d, name, depth + 1);
    ExtractAffordable(c, l, p.Add(taken), d, name, depth + 1);
    ExtractYields(c, l, p.Add(taken), d, name, depth + 1);
    var mid := p.(totalFiles := p.totalFiles + 1 + Count(t.tree), totalBytes := p.totalBytes + |d| + Size(t.tree));
    AffordEntry(l, p, t, taken, mid);
    if r.1.Done? {
      MembersAffordable(c, l, f, r.0, members[1..], depth);
      SameBudget(l, mid, r.0, t.rest);
    }
  }

  lemma SameBudget(l: Limits, p: Progress, p': Progress, f: Forest)
    requires p.totalFiles == p'.totalFiles && p.totalBytes == p'.totalBytes
    ensures ForestAffordable(l, p, f) <==> ForestAffordable(l, p', f)
  {
  }

  lemma SkipKeepsBudget(l: Limits, p: Progress, p': Progress, t: Forest, rest: Forest)
    requires Skips(l, p, p', t, rest)
    ensures p'.totalFiles == p.totalFiles && p'.totalBytes == p.totalBytes
  {
  }

  lemma SkipAffords(l: Limits, p: Progress, p': Progress, t: Forest, rest: Forest)
    requires Skips(l, p, p', t, rest) && p.totalBytes <= l.maxTotalSize
    ensures ForestAffordable(l, p, t) <==> ForestAffordable(l, p', rest)
  {
    hide ForestAffordable, Passes;
    SameBudget(l, p, p', rest);
    var inner := if t.Probe? then t.rest else t;
    if t.Probe? { AffordProbe(l, p, t.need, t.heavy, t.rest); }
    if inner.Flaw? { AffordFlaw(l, p, inner); }
  }

  lemma HaltAffords(l: Limits, p: Progress, t: Forest)
    requires p.totalBytes <= l.maxTotalSize
    ensures t.Probe? ==>
      (ForestAffordable(l, p, t) <==> Passes(l, p, t.need, t.heavy) && ForestAffordable(l, p, t.rest))
    ensures t.Probe? && t.rest == Failed ==> (ForestAffordable(l, p, t) <==> Passes(l, p, t.need, t.heavy))
    ensures t.Entry? && t.listed && !Passes(l, p, t.need, t.heavy) ==> !ForestAffordable(l, p, t)
  {
    if t.Probe? {
      AffordProbe(l, p, t.need, t.heavy, t.rest);
    }
  }

  // ----- calls and files -------------------------------------------------------------------

  /** Every file counted is followed by one call; only single streams may pass the file budget,
      at most one of them at each level. */
  lemma {:induction false} ExtractCounts(c: Codec, l: Limits, p: Progress, content: Bytes, name: string, depth: nat)
    requires depth <= l.maxDepth + 1
    requires p.totalFiles <= l.maxFiles + depth - 1
    ensures var p' := Extract(c, l, p, content, name, depth).0;
      && p'.calls - p'.totalFiles == p.calls + 1 - p.totalFiles
      && p'.totalFiles <= l.maxFiles + l.maxDepth
    decreases Max0(l.maxDepth + 1 - depth), 2
  {
    hide IsArchive, SafeName, BaseName, InnerName, OverRatio;
    if depth <= l.maxDepth {
      var q := p.(calls := p.calls + 1);
      match IsArchive(name, content)
      case None =>
      case Some(f) =>
        if !f.TarBz2? && IsStream(f) {
          if c.inflate(f, content).Some? {
            var d := c.inflate(f, content).value;
            ExtractCounts(c, l, q.Add(FromStream(f, content, d)), d, InnerName(f, name), depth + 1);
          }
        } else if !f.TarBz2? && Opening(c, f, c.list(f, content)).Done? {
          MembersCount(c, l, f, q, c.list(f, content).members, depth);
        }
    }
  }

  lemma {:induction false} MembersCount(c: Codec, l: Limits, f: Format, p: Progress, members: seq<Member>, depth: nat)
    requires depth <= l.maxDepth && Lists(f)
    requires p.totalFiles <= l.maxFiles + l.maxDepth
    ensures var p' := ExtractMembers(c, l, f, p, members, depth).0;
      && p'.calls - p'.totalFiles == p.calls - p.totalFiles
      && p'.totalFiles <= l.maxFiles + l.maxDepth
    decreases Max0(l.maxDepth + 1 - depth), 1, |members|
  {
    hide SafeName, BaseName, OverRatio, Extract, Judge;
    if members != [] {
      JudgeShape(c, l, f, p, members, depth);
      match Judge(c, l, f, p, members[0])
      case Skip(p') => MembersCount(c, l, f, p', members[1..], depth);
      case Halt(_) =>
      case Take(d) =>
        var name := BaseName(members[0].name);
        var taken := FromMember(f, members[0], d);
        ExtractCounts(c, l, p.Add(taken), d, name, depth + 1);
        var r := Extract(c, l, p.Add(taken), d, name, depth + 1);
        if r.1.Done? {
          MembersCount(c, l, f, r.0, members[1..], depth);
        }
    }
  }

  // ----- main results ----------------------------------------------------------------------

  /** A whole inspection: it yields the leaves of the tree in order, completely exactly when the
      tree is affordable and a prefix of them otherwise, and never passes the byte budget. */
  lemma InspectRefinesTree(c: Codec, l: Limits, content: Bytes, name: string)
    requires HonestSizes(c) && l.maxTotalSize >= 0
    ensures var r := Extract(c, l, START, content, name, 0);
      var t := Unfold(c, l, content, name, 0);
      && Yields(c, START, r, TreeYield(c, t))
      && (!r.1.Aborted? <==> TreeAffordable(l, START, t))
      && r.0.totalBytes <= l.maxTotalSize
  {
    ExtractYields(c, l, START, content, name, 0);
    ExtractAffordable(c, l, START, content, name, 0);
  }

  /** File budget and call count of a whole inspection, aborted or not. */
  lemma InspectCounts(c: Codec, l: Limits, content: Bytes, name: string)
    requires l.maxFiles >= 1 && l.maxDepth >= 0
    ensures var p := Extract(c, l, START, content, name, 0).0;
      p.totalFiles <= l.maxFiles + l.maxDepth && p.calls == p.totalFiles + 1
  {
    ExtractCounts(c, l, START, content, name, 0);
  }

  /** Members checked and bytes declared at all levels. */
  function Totals(t: Tree): (nat, nat) { if t.Archive? then ForestTotals(t.entries) else (0, 0) }

  function ForestTotals(f: Forest): (nat, nat) {
    match f
    case End => (0, 0)
    case Failed => (0, 0)
    case Flaw(_, rest) => ForestTotals(rest)
    case Probe(need, _, rest) => var r := ForestTotals(rest); (1 + r.0, need + r.1)
    case Entry(_, need, _, _, tree, rest) =>
      var t, r := Totals(tree), ForestTotals(rest);
      (1 + t.0 + r.0, need + t.1 + r.1)
  }

  predicate SizesDeclared(t: Tree) { t.Archive? ==> ForestSizesDeclared(t.entries) }

  predicate ForestSizesDeclared(f: Forest) {
    match f
    case End => true
    case Failed => true
    case Flaw(_, rest) => ForestSizesDeclared(rest)
    case Probe(_, _, rest) => ForestSizesDeclared(rest)
    case Entry(_, need, _, size, tree, rest) =>
      size <= need && SizesDeclared(tree) && ForestSizesDeclared(rest)
  }

  lemma {:induction false} NeedsWithinTotals(t: Tree)
    requires SizesDeclared(t)
    ensures FileNeed(t) <= Totals(t).0 && ByteNeed(t) <= Totals(t).1
    ensures Count(t) <= Totals(t).0 && Size(t) <= Totals(t).1
    decreases t, 1
  {
    if t.Archive? { ForestNeedsWithinTotals(t.entries); }
  }

  lemma {:induction false} ForestNeedsWithinTotals(f: Forest)
    requires ForestSizesDeclared(f)
    ensures ForestFileNeed(f) <= ForestTotals(f).0 && ForestByteNeed(f) <= ForestTotals(f).1
    ensures ForestCount(f) <= ForestTotals(f).0 && ForestSize(f) <= ForestTotals(f).1
    decreases f, 0
  {
    match f
    case End =>
    case Failed =>
    case Flaw(_, rest) => ForestNeedsWithinTotals(rest);
    case Probe(_, _, rest) => ForestNeedsWithinTotals(rest);
    case Entry(_, _, _, _, tree, rest) => NeedsWithinTotals(tree); ForestNeedsWithinTotals(rest);
  }

  lemma {:induction false} UnfoldSizesDeclared(c: Codec, l: Limits, content: Bytes, name: string, depth: nat)
    requires HonestSizes(c)
    ensures SizesDeclared(Unfold(c, l, content, name, depth))
    decreases Max0(l.maxDepth + 1 - depth), 2
  {
    hide IsArchive, SafeName, BaseName, InnerName, OverRatio;
    if depth <= l.maxDepth && IsArchive(name, content).Some? {
      var f := IsArchive(name, content).value;
      if IsStream(f) && c.inflate(f, content).Some? {
        UnfoldSizesDeclared(c, l, c.inflate(f, content).value, InnerName(f, name), depth + 1);
        assert ForestSizesDeclared(End);
      } else if Lists(f) && Opening(c, f, c.list(f, content)).Done? {
        MembersSizesDeclared(c, l, f, c.list(f, content).members, depth);
      }
    }
  }

  lemma {:induction false} MembersSizesDeclared(c: Codec, l: Limits, f: Format, members: seq<Member>, depth: nat)
    requires HonestSizes(c) && HonestMembers(members) && depth <= l.maxDepth
    ensures ForestSizesDeclared(UnfoldMembers(c, l, f, members, depth))
    decreases Max0(l.maxDepth + 1 - depth), 1, |members|
  {
    hide SafeName, BaseName, OverRatio, Unfold;
    if members != [] {
      MembersSizesDeclared(c, l, f, members[1..], depth);
      if members[0].payload.Data? {
        UnfoldSizesDeclared(c, l, members[0].payload.data, BaseName(members[0].name), depth + 1);
      }
    }
  }

  /** An archive whose totals over all levels are within the limits is extracted completely. */
  lemma InspectCompleteWithinLimits(c: Codec, l: Limits, content: Bytes, name: string)
    requires HonestSizes(c)
    requires var t := Unfold(c, l, content, name, 0);
      !Blocked(t) && Totals(t).0 <= l.maxFiles && Totals(t).1 <= l.maxTotalSize
    ensures var r := Extract(c, l, START, content, name, 0);
      var t := Unfold(c, l, content, name, 0);
      r.1.Done? && r.0.components == Inspected(c, Leaves(t)) && r.0.errors == Problems(c, t)
  {
    UnfoldSizesDeclared(c, l, content, name, 0);
    NeedsWithinTotals(Unfold(c, l, content, name, 0));
    InspectRefinesTree(c, l, content, name);
  }

  /** Members before and after each other contribute their own leaves, unless an earlier one
      cannot be read; so a nested archive that fails loses no leaf but its own. */
  lemma {:induction false} MembersIndependent(
    c: Codec, l: Limits, f: Format, a: seq<Member>, b: seq<Member>, depth: nat)
    requires depth <= l.maxDepth
    requires forall m :: m in a ==> m.payload.Data?
    ensures ForestLeaves(UnfoldMembers(c, l, f, a + b, depth))
         == ForestLeaves(UnfoldMembers(c, l, f, a, depth)) + ForestLeaves(UnfoldMembers(c, l, f, b, depth))
    decreases |a|
  {
    hide SafeName, BaseName, OverRatio, Unfold;
    if a == [] {
      assert a + b == b;
    } else {
      assert (a + b)[1..] == a[1..] + b;
      MembersIndependent(c, l, f, a[1..], b, depth);
    }
  }

  /** An archive that cannot be opened or decompressed. */
  predicate Undecodable(c: Codec, content: Bytes, name: string) {
    var f := IsArchive(name, content);
    f.Some? && if IsStream(f.value) then c.inflate(f.value, content).None? else c.list(f.value, content).Broken?
  }

  lemma UndecodableHasNoLeaves(c: Codec, l: Limits, content: Bytes, name: string, depth: nat)
    requires depth <= l.maxDepth && Undecodable(c, content, name)
    ensures Leaves(Unfold(c, l, content, name, depth)) == [] && !Blocked(Unfold(c, l, content, name, depth))
  {
    hide IsArchive;
  }

  lemma BrokenHasNoLeaves(c: Codec, l: Limits, f: Format, m: Member, depth: nat)
    requires depth < l.maxDepth
    requires m.payload.Data? && Undecodable(c, m.payload.data, BaseName(m.name))
    ensures ForestLeaves(UnfoldMembers(c, l, f, [m], depth)) == []
  {
    hide SafeName, BaseName, OverRatio, Unfold, Undecodable;
    UndecodableHasNoLeaves(c, l, m.payload.data, BaseName(m.name), depth + 1);
    assert [m][1..] == [];
    assert UnfoldMembers(c, l, f, [], depth) == End && ForestLeaves(End) == [];
  }

  /** A nested archive that fails to decode loses only its own subtree: the leaves are those of the
      members before it and after it. */
  lemma BrokenMemberLosesOnlyItself(
    c: Codec, l: Limits, f: Format, a: seq<Member>, m: Member, b: seq<Member>, depth: nat)
    requires depth < l.maxDepth
    requires forall x :: x in a ==> x.payload.Data?
    requires m.payload.Data? && Undecodable(c, m.payload.data, BaseName(m.name))
    ensures ForestLeaves(UnfoldMembers(c, l, f, a + [m] + b, depth))
         == ForestLeaves(UnfoldMembers(c, l, f, a, depth)) + ForestLeaves(UnfoldMembers(c, l, f, b, depth))
  {
    hide Undecodable, UnfoldMembers, ForestLeaves;
    MembersIndependent(c, l, f, a + [m], b, depth);
    MembersIndependent(c, l, f, a, [m], depth);
    BrokenHasNoLeaves(c, l, f, m, depth);
  }
}
