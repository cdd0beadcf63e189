/** Recursive archive extraction under budgets. Container formats are read through a Codec, so
    contents may unpack to anything, themselves included; only the depth limit ends the recursion. */
module ArchiveInspector {
  import opened Basics
  import opened Wrappers
  import opened ArchiveFormats

  type Component = nat

  /** What reading a member yields: its data, no stream at all, or an exception. */
  datatype Payload = Data(data: Bytes) | NoStream | Unreadable

  /** `skipped` members are directories and other entries that are not regular files. */
  datatype Member = Member(
    name: string, skipped: bool, link: bool, compressed: nat, declared: nat, payload: Payload)

  /** A container that cannot be opened, or its members; 7z also unpacks them all beforehand. */
  datatype Listing = Broken | Members(members: seq<Member>, unpacks: bool)

  datatype Codec = Codec(
    list: (Format, Bytes) -> Listing,
    inflate: (Format, Bytes) -> Option<Bytes>,
    inspect: (Bytes, string) -> Option<seq<Component>>,
    blank: char -> bool)

  datatype Limits = Limits(maxDepth: int, maxTotalSize: int, maxFiles: int, maxRatio: real)

  datatype SafetyError = ZipBomb(compressed: nat, uncompressed: nat) | MaxDepth | MaxSize | MaxFiles | PathTraversal

  datatype Problem =
    | BadName(name: string) | LinkSkipped(name: string)
    | ExtractFailed(name: string) | InspectFailed(name: string) | Unsupported

  /** How an extractor ends: normally, by a safety error, or by any other exception. */
  datatype Outcome = Done | Aborted(error: SafetyError) | Raised

  /** Data taken out of an archive: its format, the two sizes its ratio is judged by, and its own. */
  datatype Taken = Taken(format: Format, compressed: nat, announced: nat, size: nat)

  /** The counters, errors and components so far; taken and calls are history. */
  datatype Progress = Progress(
    totalBytes: nat, totalFiles: nat, errors: seq<Problem>, components: seq<Component>,
    taken: seq<Taken>, calls: nat)
  {
    function Add(t: Taken): Progress {
      this.(totalBytes := totalBytes + t.size, totalFiles := totalFiles + 1, taken := taken + [t])
    }

    function Error(p: Problem): Progress { this.(errors := errors + [p]) }
  }

  predicate OverRatio(l: Limits, compressed: nat, uncompressed: nat) {
    compressed > 0 && uncompressed as real / compressed as real > l.maxRatio
  }

  function FromMember(f: Format, m: Member, d: Bytes): Taken { Taken(f, m.compressed, m.declared, |d|) }

  function FromStream(f: Format, content: Bytes, d: Bytes): Taken { Taken(f, |content|, |d|, |d|) }

  predicate IsStream(f: Format) { f.Gzip? || f.TarGz? || f.Bzip2? }

  /** The name of what a single-stream format contains. */
  function InnerName(f: Format, name: string): string {
    var lower := Lower(name);
    if f.Bzip2? then (if EndsWith(lower, ".bz2") then name[..|name| - 4] else name)
    else if EndsWith(lower, ".gz") then name[..|name| - 3]
    else if EndsWith(lower, ".gzip") then name[..|name| - 5]
    else name
  }

  /** What the loop over members does with one of them. */
  datatype Verdict = Skip(progress: Progress) | Halt(outcome: Outcome) | Take(data: Bytes)

  function Judge(c: Codec, l: Limits, f: Format, p: Progress, m: Member): Verdict {
    var full := p.totalFiles >= l.maxFiles;
    var tooBig := p.totalBytes + m.declared > l.maxTotalSize;
    match f
    case Tar =>
      if m.link then Skip(p.Error(LinkSkipped(m.name)))
      else if m.skipped then Skip(p)
      else if !SafeName(m.name, c.blank) then Skip(p.Error(BadName(m.name)))
      else if full then Halt(Aborted(MaxFiles))
      else if tooBig then Halt(Aborted(MaxSize))
      else (match m.payload case Data(d) => Take(d) case NoStream => Skip(p) case Unreadable => Halt(Raised))
    case SevenZip =>
      if m.skipped then Skip(p)
      else if full then Halt(Aborted(MaxFiles))
      else if !SafeName(m.name, c.blank) then Skip(p.Error(BadName(m.name)))
      else (match m.payload
            case Data(d) => if p.totalBytes + |d| > l.maxTotalSize then Halt(Aborted(MaxSize)) else Take(d)
            case _ => Halt(Raised))
    case _ =>
      if m.skipped then Skip(p)
      else if !SafeName(m.name, c.blank) then Skip(p.Error(BadName(m.name)))
      else if full then Halt(Aborted(MaxFiles))
      else if OverRatio(l, m.compressed, m.declared) then Halt(Aborted(ZipBomb(m.compressed, m.declared)))
      else if tooBig then Halt(Aborted(MaxSize))
      else (match m.payload case Data(d) => Take(d) case _ => Halt(Raised))
  }

  /** 7z checks every name before it unpacks anything. */
  predicate AnyUnsafe(c: Codec, members: seq<Member>) {
    exists m :: m in members && !SafeName(m.name, c.blank)
  }

  /** The outcome before the first member is looked at. */
  function Opening(c: Codec, f: Format, listing: Listing): Outcome {
    match listing
    case Broken => Raised
    case Members(members, unpacks) =>
      if f.SevenZip? && AnyUnsafe(c, members) then Aborted(PathTraversal)
      else if f.SevenZip? && !unpacks then Raised
      else Done
  }

  function InspectFile(c: Codec, p: Progress, content: Bytes, name: string): Progress {
    match c.inspect(content, name)
    case Some(components) => p.(components := p.components + components)
    case None => p.Error(InspectFailed(name))
  }

  // ----- the extraction as a function of its progress --------------------------------------

  function Extract(c: Codec, l: Limits, p: Progress, content: Bytes, name: string, depth: nat)
    : (r: (Progress, Outcome))
    ensures !r.1.Raised?
    decreases Max0(l.maxDepth + 1 - depth), 2
  {
    var p := p.(calls := p.calls + 1);
    if depth > l.maxDepth then (p, Aborted(MaxDepth))
    else
      match IsArchive(name, content)
      case None => (InspectFile(c, p, content, name), Done)
      case Some(f) =>
        var (p', o) := Unpack(c, l, f, p, content, name, depth);
        if o.Raised? then (p'.Error(ExtractFailed(name)), Done) else (p', o)
  }

  function Unpack(c: Codec, l: Limits, f: Format, p: Progress, content: Bytes, name: string, depth: nat)
    : (Progress, Outcome)
    requires depth <= l.maxDepth
    decreases Max0(l.maxDepth + 1 - depth), 1
  {
    if f.TarBz2? then (p.Error(Unsupported), Done)
    else if IsStream(f) then
      match c.inflate(f, content)
      case None => (p, Raised)
      case Some(d) =>
        if OverRatio(l, |content|, |d|) then (p, Aborted(ZipBomb(|content|, |d|)))
        else if p.totalBytes + |d| > l.maxTotalSize then (p, Aborted(MaxSize))
        else Extract(c, l, p.Add(FromStream(f, content, d)), d, InnerName(f, name), depth + 1)
    else
      var listing := c.list(f, content);
      var o := Opening(c, f, listing);
      if o.Done? then ExtractMembers(c, l, f, p, listing.members, depth) else (p, o)
  }

  function ExtractMembers(c: Codec, l: Limits, f: Format, p: Progress, members: seq<Member>, depth: nat)
    : (Progress, Outcome)
    requires depth <= l.maxDepth
    decreases Max0(l.maxDepth + 1 - depth), 0, |members|
  {
    if members == [] then (p, Done)
    else
      match Judge(c, l, f, p, members[0])
      case Skip(p') => ExtractMembers(c, l, f, p', members[1..], depth)
      case Halt(o) => (p, o)
      case Take(d) =>
        var (p', o) := Extract(c, l, p.Add(FromMember(f, members[0], d)), d, BaseName(members[0].name), depth + 1);
        if o.Done? then ExtractMembers(c, l, f, p', members[1..], depth) else (p', o)
  }

  /** The components `inspect` returns: those extracted, one for a safety abort, one per error. */
  datatype Reported = FromFile(component: Component) | Safety(error: SafetyError) | Error(problem: Problem)

  function Report(r: (Progress, Outcome)): seq<Reported> {
    seq(|r.0.components|, i requires 0 <= i < |r.0.components| => FromFile(r.0.components[i]))
    + (if r.1.Aborted? then [Safety(r.1.error)] else [])
    + seq(|r.0.errors|, i requires 0 <= i < |r.0.errors| => Error(r.0.errors[i]))
  }

  const START := Progress(0, 0, [], [], [], 0)

  // ----- the extractor, which updates its counters and the message in place ----------------

  class Extraction {
    const codec: Codec
    const limits: Limits
    var progress: Progress

    constructor (codec: Codec, limits: Limits)
      ensures this.codec == codec && this.limits == limits && progress == START
    {
      this.codec := codec;
      this.limits := limits;
      progress := START;
    }

    method ExtractRecursive(content: Bytes, name: string, depth: nat) returns (o: Outcome)
      modifies this
      ensures (progress, o) == Extract(codec, limits, old(progress), content, name, depth)
      decreases Max0(limits.maxDepth + 1 - depth), 2
    {
      progress := progress.(calls := progress.calls + 1);
      if depth > limits.maxDepth {
        return Aborted(MaxDepth);
      }
      var format := IsArchive(name, content);
      if format.None? {
        progress := InspectFile(codec, progress, content, name);
        return Done;
      }
      o := UnpackArchive(format.value, content, name, depth);
      if o.Raised? {
        progress := progress.Error(ExtractFailed(name));
        o := Done;
      }
    }

    method UnpackArchive(f: Format, content: Bytes, name: string, depth: nat) returns (o: Outcome)
      requires depth <= limits.maxDepth
      modifies this
      ensures (progress, o) == Unpack(codec, limits, f, old(progress), content, name, depth)
      decreases Max0(limits.maxDepth + 1 - depth), 1
    {
      if f.TarBz2? {
        progress := progress.Error(Unsupported);
        return Done;
      }
      if IsStream(f) {
        var inner := codec.inflate(f, content);
        if inner.None? {
          return Raised;
        }
        if OverRatio(limits, |content|, |inner.value|) {
          return Aborted(ZipBomb(|content|, |inner.value|));
        }
        if progress.totalBytes + |inner.value| > limits.maxTotalSize {
          return Aborted(MaxSize);
        }
        progress := progress.Add(FromStream(f, content, inner.value));
        o := ExtractRecursive(inner.value, InnerName(f, name), depth + 1);
        return;
      }
      var listing := codec.list(f, content);
      o := Opening(codec, f, listing);
      if o.Done? {
        o := ExtractEach(f, listing.members, depth);
      }
    }

    method ExtractEach(f: Format, members: seq<Member>, depth: nat) returns (o: Outcome)
      requires depth <= limits.maxDepth
      modifies this
      ensures (progress, o) == ExtractMembers(codec, limits, f, old(progress), members, depth)
      decreases Max0(limits.maxDepth + 1 - depth), 0
    {
      var i := 0;
      while i < |members|
        invariant 0 <= i <= |members|
        invariant ExtractMembers(codec, limits, f, old(progress), members, depth)
               == ExtractMembers(codec, limits, f, progress, members[i..], depth)
      {
        var verdict := Judge(codec, limits, f, progress, members[i]);
        match verdict {
          case Skip(p) => progress := p;
          case Halt(outcome) => return outcome;
          case Take(data) =>
            progress := progress.Add(FromMember(f, members[i], data));
            o := ExtractRecursive(data, BaseName(members[i].name), depth + 1);
            if !o.Done? {
              return;
            }
        }
        assert members[i..][1..] == members[i + 1..];
        i := i + 1;
      }
      return Done;
    }
  }

  method Inspect(codec: Codec, limits: Limits, content: Bytes, filename: string)
    returns (report: seq<Reported>)
    ensures report == Report(Extract(codec, limits, START, content, filename, 0))
  {
    var extraction := new Extraction(codec, limits);
    var o := extraction.ExtractRecursive(content, filename, 0);
    report := Report((extraction.progress, o));
  }
}
