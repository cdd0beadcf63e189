/** What the parts of an inspection mean by themselves: which contents and names are archives, which
    member names are accepted, what may be taken out of an archive, and what a report lists. */
module ArchiveLaws {
  import opened Basics
  import opened Wrappers
  import opened ArchiveFormats
  import opened ArchiveInspector
  import opened ArchiveTree

  // ----- formats by content ----------------------------------------------------------------

  const ZIP: Bytes := [0x50, 0x4B, 0x03, 0x04]
  const SEVEN_ZIP: Bytes := [0x37, 0x7A, 0xBC, 0xAF, 0x27, 0x1C]
  const RAR4: Bytes := [0x52, 0x61, 0x72, 0x21, 0x1A, 0x07, 0x00]
  const RAR5: Bytes := [0x52, 0x61, 0x72, 0x21, 0x1A, 0x07, 0x01, 0x00]
  const GZIP: Bytes := [0x1F, 0x8B]
  const USTAR: Bytes := [0x75, 0x73, 0x74, 0x61, 0x72]

  /** Each signature decides exactly for the contents that start with it. */
  lemma ByMagicIff(content: Bytes)
    ensures ByMagic(content) == Some(Zip) <==> ZIP <= content
    ensures ByMagic(content) == Some(SevenZip) <==> SEVEN_ZIP <= content
    ensures ByMagic(content) == Some(Rar) <==> RAR4 <= content || RAR5 <= content
    ensures ByMagic(content) == Some(Gzip) <==> GZIP <= content
    ensures ByMagic(content) == Some(Bzip2) <==> content == [0x42, 0x5A, 0x68]
    ensures ByMagic(content) == Some(Tar) <==>
      && |content| > 262 && content[257..262] == USTAR
      && !(ZIP <= content || SEVEN_ZIP <= content || RAR4 <= content || RAR5 <= content || GZIP <= content)
    ensures ByMagic(content) !in {Some(TarGz), Some(TarBz2)}
  {
    hide ByMagic, Prefix;
    PrefixIff(content, 4, ZIP);
    PrefixIff(content, 6, SEVEN_ZIP);
    PrefixIff(content, 7, RAR4);
    PrefixIff(content, 8, RAR5);
    PrefixIff(content, 2, GZIP);
    Bzip2MagicIffBareSignature(content);
    SignaturesDiffer(content);
    MagicOrder(content);
  }

  lemma PrefixIff(content: Bytes, n: nat, magic: Bytes)
    requires n == |magic|
    ensures Prefix(content, n, magic) <==> magic <= content
  {
  }

  lemma SignaturesDiffer(content: Bytes)
    ensures ZIP <= content ==> !(SEVEN_ZIP <= content) && !(RAR4 <= content) && !(RAR5 <= content) && !(GZIP <= content)
    ensures SEVEN_ZIP <= content ==> !(RAR4 <= content) && !(RAR5 <= content) && !(GZIP <= content)
    ensures RAR4 <= content || RAR5 <= content ==> !(GZIP <= content)
  {
    if content != [] {
      assert ZIP <= content ==> content[0] == ZIP[0];
      assert SEVEN_ZIP <= content ==> content[0] == SEVEN_ZIP[0];
      assert RAR4 <= content ==> content[0] == RAR4[0];
      assert RAR5 <= content ==> content[0] == RAR5[0];
      assert GZIP <= content ==> content[0] == GZIP[0];
    }
  }

  /** The order in which the signatures are tried. */
  lemma MagicOrder(content: Bytes)
    ensures ByMagic(content) ==
      if Prefix(content, 4, ZIP) then Some(Zip)
      else if Prefix(content, 6, SEVEN_ZIP) then Some(SevenZip)
      else if Prefix(content, 7, RAR4) || Prefix(content, 8, RAR5) then Some(Rar)
      else if Prefix(content, 2, GZIP) then Some(Gzip)
      else if content == [0x42, 0x5A, 0x68] then Some(Bzip2)
      else if |content| > 262 && content[257..262] == USTAR then Some(Tar)
      else None
  {
    hide Prefix;
    Bzip2MagicIffBareSignature(content);
    Bzip2Prefix(content);
  }

  lemma Bzip2Prefix(content: Bytes)
    ensures Prefix(content, 5, [0x42, 0x5A, 0x68]) <==> content == [0x42, 0x5A, 0x68]
  {
    if |content| <= 5 { assert content[..|content|] == content; }
  }

  // ----- names and their parts -------------------------------------------------------------

  /** Lowering is a map of the characters that touches the capital letters alone. */
  lemma LowerLetters(a: string, b: string, c: char)
    ensures Lower(a + b) == Lower(a) + Lower(b)
    ensures Lower("ABCDEFGHIJKLMNOPQRSTUVWXYZ") == "abcdefghijklmnopqrstuvwxyz"
    ensures !('A' <= c <= 'Z') ==> Lower([c]) == [c]
  {
  }

  lemma {:induction false} SplitFirst(a: string, sep: char, b: string)
    requires sep !in a
    ensures Split(a + [sep] + b, sep) == [a] + Split(b, sep)
  {
    var t := a + [sep] + b;
    if a == "" {
      assert t[1..] == b;
    } else {
      assert t[1..] == a[1..] + [sep] + b;
      SplitFirst(a[1..], sep, b);
      assert a == [a[0]] + a[1..];
      assert ([a[1..]] + Split(b, sep))[1..] == Split(b, sep);
    }
  }

  /** s[i..j] lies between two separators or ends of the text and has none in it. */
  predicate IsPart(s: string, sep: char, i: int, j: int) {
    && 0 <= i <= j <= |s| && (forall k :: i <= k < j ==> s[k] != sep)
    && (i > 0 ==> s[i - 1] == sep) && (j < |s| ==> s[j] == sep)
  }

  /** Position of the first separator, or the length. */
  function FirstOf(s: string, sep: char): (n: nat)
    ensures n <= |s| && (forall k :: 0 <= k < n ==> s[k] != sep) && (n < |s| ==> s[n] == sep)
  {
    if s == "" || s[0] == sep then 0 else 1 + FirstOf(s[1..], sep)
  }

  ghost predicate HasPart(s: string, sep: char, part: string) {
    exists i, j :: IsPart(s, sep, i, j) && s[i..j] == part
  }

  /** Splitting gives exactly the parts. */
  lemma {:induction false} PartIff(s: string, sep: char, part: string)
    ensures part in Split(s, sep) <==> HasPart(s, sep, part)
    decreases |s|
  {
    hide Split, HasPart;
    var n := FirstOf(s, sep);
    if n == |s| {
      SplitWhole(s, sep);
      OnlyPart(s, sep, part);
    } else {
      var rest := s[n + 1..];
      assert s == s[..n] + [sep] + rest;
      SplitFirst(s[..n], sep, rest);
      PartIff(rest, sep, part);
      FirstPart(s, sep, n, part);
    }
  }

  lemma OnlyPart(s: string, sep: char, part: string)
    requires sep !in s
    ensures HasPart(s, sep, part) <==> part == s
  {
    assert IsPart(s, sep, 0, |s|) && s[0..|s|] == s;
  }

  lemma FirstPart(s: string, sep: char, n: nat, part: string)
    requires n < |s| && s[n] == sep && forall k :: 0 <= k < n ==> s[k] != sep
    ensures HasPart(s, sep, part) <==> part == s[..n] || HasPart(s[n + 1..], sep, part)
  {
    var rest := s[n + 1..];
    assert IsPart(s, sep, 0, n) && s[0..n] == s[..n];
    if i, j :| IsPart(s, sep, i, j) && s[i..j] == part {
      LaterPart(s, sep, n, i, j);
    }
    if i, j :| IsPart(rest, sep, i, j) && rest[i..j] == part {
      assert s[i + n + 1..j + n + 1] == rest[i..j];
      assert IsPart(s, sep, i + n + 1, j + n + 1);
    }
  }

  lemma LaterPart(s: string, sep: char, n: nat, i: int, j: int)
    requires n < |s| && s[n] == sep && (forall k :: 0 <= k < n ==> s[k] != sep) && IsPart(s, sep, i, j)
    ensures (i == 0 && j == n) ||
            (i > n && IsPart(s[n + 1..], sep, i - n - 1, j - n - 1) && s[n + 1..][i - n - 1..j - n - 1] == s[i..j])
  {
    if i > n {
      assert s[n + 1..][i - n - 1..j - n - 1] == s[i..j];
    }
  }

  /** The last component of a path. */
  lemma BaseNameOf(dir: string, base: string)
    requires '/' !in base && base != "" && base != "."
    ensures BaseName(base) == base && BaseName(dir + "/" + base) == base
  {
    SplitWhole(base, '/');
    SplitLast(dir, '/', base);
  }

  lemma {:induction false} SplitLast(a: string, sep: char, b: string)
    requires sep !in b
    ensures var parts := Split(a + [sep] + b, sep); parts[|parts| - 1] == b
    decreases |a|
  {
    hide Split;
    var n := FirstOf(a, sep);
    if n == |a| {
      assert a[..n] == a;
      SplitFirst(a, sep, b);
      SplitWhole(b, sep);
    } else {
      var rest := a[n + 1..];
      assert a + [sep] + b == a[..n] + [sep] + (rest + [sep] + b);
      SplitFirst(a[..n], sep, rest + [sep] + b);
      SplitLast(rest, sep, b);
    }
  }

  /** A stem and an extension: the suffix is the extension. */
  lemma SuffixOf(stem: string, ext: string)
    requires stem != "" && '/' !in stem && '/' !in ext
    requires |ext| >= 2 && ext[0] == '.' && '.' !in ext[1..]
    ensures Suffix(stem + ext) == ext
  {
    var name := stem + ext;
    assert '/' !in name;
    assert name != ".";
    BaseNameOf("", name);
    LastDotAt(name, |stem|);
    assert name[|stem|..] == ext;
  }

  /** A name without a dot, with its only dot in front, or with a dot at its end has no suffix. */
  lemma SuffixNone(name: string)
    requires name != "" && name != "." && '/' !in name
    requires '.' !in name[1..] || name[|name| - 1] == '.'
    ensures Suffix(name) == ""
  {
    BaseNameOf("", name);
    var i := LastDot(name);
    if i > 0 {
      LastDotIsDot(name);
      assert name[1..][i - 1] == name[i];
      LastDotAt(name, |name| - 1);
    }
  }

  lemma {:induction false} LastDotIsDot(s: string)
    ensures LastDot(s) >= 0 ==> s[LastDot(s)] == '.'
    decreases |s|
  {
    if s != "" { LastDotIsDot(s[..|s| - 1]); }
  }

  /** Content decides before the name does. */
  lemma ContentBeforeName(filename: string, content: Bytes)
    ensures ByMagic(content).Some? ==> IsArchive(filename, content) == ByMagic(content)
    ensures ByMagic(content).None? ==> IsArchive(filename, content) == OfExtension(Lower(Suffix(filename)))
  {
    hide ByMagic, ByName, OfExtension, Suffix, Lower;
    ByNameIsByExtension(filename);
  }

  lemma {:induction false} LastDotAt(s: string, k: nat)
    requires k < |s| && s[k] == '.' && '.' !in s[k + 1..]
    ensures LastDot(s) == k
    decreases |s|
  {
    if k < |s| - 1 {
      assert s[|s| - 1] == s[k + 1..][|s| - k - 2];
      assert s[..|s| - 1][k + 1..] == s[k + 1..][..|s| - k - 2];
      LastDotAt(s[..|s| - 1], k);
    }
  }

  /** The format of an extension. */
  function OfExtension(ext: string): Option<Format> {
    match ext
    case ".zip" => Some(Zip)
    case ".7z" => Some(SevenZip)
    case ".rar" => Some(Rar)
    case ".gz" => Some(Gzip)
    case ".gzip" => Some(Gzip)
    case ".bz2" => Some(Bzip2)
    case ".tar" => Some(Tar)
    case ".tgz" => Some(TarGz)
    case _ => None
  }

  /** A name decides by its last extension, in either case, and by nothing else: the tests for the
      double extensions never succeed, so a .tar.gz is read as gzip and a .tar.bz2 as bzip2. */
  lemma ByNameIsByExtension(filename: string)
    ensures ByName(filename) == OfExtension(Lower(Suffix(filename)))
  {
    hide Suffix, Lower, EndsWith;
    if EndsWith(Lower(filename), ".tar.gz") {
      DoubleExtension(filename, ".tar.gz", 4);
      assert ".tar.gz"[4..] == ".gz";
    }
    if EndsWith(Lower(filename), ".tar.bz2") {
      DoubleExtension(filename, ".tar.bz2", 4);
      assert ".tar.bz2"[4..] == ".bz2";
    }
  }

  lemma DoubleExtension(filename: string, tail: string, k: nat)
    requires EndsWith(Lower(filename), tail)
    requires 0 < k < |tail| - 1 && tail[k] == '.' && '.' !in tail[k + 1..] && '/' !in tail
    ensures Lower(Suffix(filename)) == tail[k..]
  {
    hide Suffix, BaseName, LastDot, Lower;
    var n := |filename| - |tail|;
    var own := filename[n..];
    LowerSlice(filename, n);
    LowerKeeps(own);
    NoneIn(own, tail, 0, '/');
    NoneIn(own, tail, k + 1, '.');
    NameEndsWith(filename[..n], own);
    assert filename[..n] + own == filename;
    var name := BaseName(filename);
    DotInside(name, own, k);
    var dot := |name| - |own| + k;
    LastDotAt(name, dot);
    SuffixByDot(filename, dot);
    assert name[dot..] == name[|name| - |own|..][k..];
    LowerSlice(own, k);
  }

  lemma LowerSlice(s: string, i: nat)
    requires i <= |s|
    ensures Lower(s[i..]) == Lower(s)[i..]
  {
  }

  /** Lowering keeps dots and slashes. */
  lemma LowerKeeps(s: string)
    ensures forall i :: 0 <= i < |s| ==> (Lower(s)[i] == '.' <==> s[i] == '.') && (Lower(s)[i] == '/' <==> s[i] == '/')
  {
  }

  lemma NoneIn(s: string, t: string, from: nat, c: char)
    requires from <= |s| == |t| && c !in t[from..]
    requires forall i :: 0 <= i < |s| ==> (t[i] == c <==> s[i] == c)
    ensures c !in s[from..]
  {
    var a, b := s[from..], t[from..];
    forall i | 0 <= i < |a| ensures a[i] != c { assert b[i] == t[from + i] && b[i] in b; }
  }

  lemma DotInside(name: string, own: string, k: nat)
    requires EndsWith(name, own) && k < |own| && own[k] == '.' && '.' !in own[k + 1..]
    ensures var i := |name| - |own| + k; name[i] == '.' && '.' !in name[i + 1..]
  {
    var m := |name| - |own|;
    assert name[m..][k] == own[k];
    assert name[m + k + 1..] == own[k + 1..];
  }

  lemma SuffixByDot(filename: string, i: nat)
    requires LastDot(BaseName(filename)) == i && 0 < i < |BaseName(filename)| - 1
    ensures Suffix(filename) == BaseName(filename)[i..]
  {
    hide BaseName, LastDot;
  }

  lemma {:induction false} NameEndsWith(a: string, own: string)
    requires '/' !in own && own != "" && |own| > 1
    ensures EndsWith(BaseName(a + own), own)
    decreases |a|
  {
    hide Split;
    var n := FirstOf(a, '/');
    if n == |a| {
      assert a[..n] == a;
      SplitWhole(a + own, '/');
    } else {
      var rest := a[n + 1..];
      assert a + own == a[..n] + "/" + (rest + own);
      SplitFirst(a[..n], '/', rest + own);
      NameEndsWith(rest, own);
      LastNamedTail(a[..n], Split(rest + own, '/'));
    }
  }

  lemma LastNamedTail(first: string, parts: seq<string>)
    requires LastNamed(parts) != ""
    ensures LastNamed([first] + parts) == LastNamed(parts)
  {
    if parts != [] {
      var all := [first] + parts;
      assert all[|all| - 1] == parts[|parts| - 1];
      assert all[..|all| - 1] == [first] + parts[..|parts| - 1];
      if parts[|parts| - 1] in {"", "."} {
        LastNamedTail(first, parts[..|parts| - 1]);
      }
    }
  }

  /** A single-stream format names its content by dropping its own extension, in either case. */
  lemma InnerNameOf(f: Format, stem: string, ext: string)
    ensures f.Bzip2? && Lower(ext) == ".bz2" ==> InnerName(f, stem + ext) == stem
    ensures !f.Bzip2? && Lower(ext) in {".gz", ".gzip"} ==> InnerName(f, stem + ext) == stem
    ensures f.Bzip2? && !EndsWith(Lower(stem), ".bz2") ==> InnerName(f, stem) == stem
    ensures !f.Bzip2? && !EndsWith(Lower(stem), ".gz") && !EndsWith(Lower(stem), ".gzip") ==> InnerName(f, stem) == stem
  {
    var name := stem + ext;
    assert Lower(name) == Lower(stem) + Lower(ext);
    assert Lower(name)[|stem|..] == Lower(ext);
    assert name[..|stem|] == stem;
    if Lower(ext) == ".gzip" {
      assert Lower(name)[|name| - 1] == 'p';
      assert |name| >= 3 ==> Lower(name)[|name| - 3..][2] == 'p';
    }
  }

  // ----- member names ----------------------------------------------------------------------

  predicate IsSeparator(c: char) { c == '/' || c == '\\' }

  /** name[i..j] is a component: between separators of either kind. */
  predicate IsComponent(name: string, i: int, j: int) {
    && 0 <= i <= j <= |name| && (forall k :: i <= k < j ==> !IsSeparator(name[k]))
    && (i > 0 ==> IsSeparator(name[i - 1])) && (j < |name| ==> IsSeparator(name[j]))
  }

  /** con, prn, aux, nul, com1 to com9 and lpt1 to lpt9. */
  predicate IsDevice(d: string) {
    d in {"con", "prn", "aux", "nul"} || (|d| == 4 && d[..3] in {"com", "lpt"} && '1' <= d[3] <= '9')
  }

  /** A device name in any case, alone, before a dot, or before a final line feed. */
  ghost predicate NamesDevice(part: string) {
    exists d :: IsDevice(d) && d <= Lower(part) && (var rest := Lower(part)[|d|..];
      rest == "" || rest[0] == '.' || rest == "\n")
  }

  lemma ReservedIff(part: string)
    ensures Reserved(part) <==> NamesDevice(part)
  {
    hide Lower;
    var p := Lower(part);
    if Reserved(part) {
      var n := if p[..3] in {"con", "prn", "aux", "nul"} && Stops(p[3..]) then 3 else 4;
      var d := p[..n];
      assert n == 4 ==> d[..3] == p[..3] && d[3] == p[3];
      assert IsDevice(d) && d <= p;
    }
    if d :| IsDevice(d) && d <= p && Stops(p[|d|..]) {
      assert p[..|d|] == d;
      if |d| == 4 { assert p[..3] == d[..3] && p[3] == d[3]; }
    }
  }

  ghost predicate ComponentsSafe(name: string) {
    forall i, j :: 0 <= i <= j <= |name| && IsComponent(name, i, j) ==>
      name[i..j] != ".." && !NamesDevice(name[i..j])
  }

  /** A member name is accepted exactly when it is not blank, does not start at a root or at the root
      of a drive, and no component of it goes up or names a device. */
  lemma SafeNameIff(name: string, blank: char -> bool)
    ensures SafeName(name, blank) <==>
      && (exists i :: 0 <= i < |name| && !blank(name[i]))
      && !IsSeparator(name[0])
      && !(|name| >= 3 && name[1] == ':' && IsSeparator(name[2]))
      && ComponentsSafe(name)
  {
    hide Split, PartsSafe, Absolute, Slashes, ComponentsSafe;
    AbsoluteIff(name);
    PartsSafeIff(name);
  }

  lemma AbsoluteIff(name: string)
    ensures Absolute(name) <==>
      name != "" && (IsSeparator(name[0]) || (|name| >= 3 && name[1] == ':' && IsSeparator(name[2])))
  {
    var s := Slashes(name);
    if |name| >= 3 {
      assert s[1..3] == [s[1], s[2]];
    }
  }

  lemma PartsSafeIff(name: string)
    ensures PartsSafe(Split(Slashes(name), '/')) <==> ComponentsSafe(name)
  {
    hide Split, NamesDevice, Reserved, IsComponent, Slashes;
    var parts := Split(Slashes(name), '/');
    if PartsSafe(parts) {
      forall i, j | 0 <= i <= j <= |name| && IsComponent(name, i, j)
        ensures name[i..j] != ".." && !NamesDevice(name[i..j])
      {
        ComponentIff(name, name[i..j]);
        ReservedIff(name[i..j]);
      }
    }
    forall part | part in parts
      ensures exists i, j :: 0 <= i <= j <= |name| && IsComponent(name, i, j) && name[i..j] == part
      ensures Reserved(part) <==> NamesDevice(part)
    {
      ComponentIff(name, part);
      ReservedIff(part);
    }
  }

  lemma ComponentIff(name: string, part: string)
    ensures part in Split(Slashes(name), '/') <==>
            exists i, j :: 0 <= i <= j <= |name| && IsComponent(name, i, j) && name[i..j] == part
  {
    hide Split;
    var s := Slashes(name);
    PartIff(s, '/', part);
    forall i, j | IsPart(s, '/', i, j) ensures IsComponent(name, i, j) && s[i..j] == name[i..j] {
      SamePart(name, i, j);
    }
    forall i, j | IsComponent(name, i, j) ensures IsPart(s, '/', i, j) && s[i..j] == name[i..j] {
      SamePart(name, i, j);
    }
  }

  lemma SamePart(name: string, i: int, j: int)
    ensures IsPart(Slashes(name), '/', i, j) <==> IsComponent(name, i, j)
    ensures IsComponent(name, i, j) ==> Slashes(name)[i..j] == name[i..j]
  {
  }

  // ----- what may be taken out -------------------------------------------------------------

  /** The formats whose compression ratio is checked. */
  predicate Measured(f: Format) { f in {Zip, Rar, Gzip, TarGz, Bzip2} }

  predicate WithinRatio(l: Limits, t: Taken) {
    Measured(t.format) ==> t.compressed == 0 || t.announced as real <= l.maxRatio * t.compressed as real
  }

  function SizeOf(taken: seq<Taken>): nat {
    if taken == [] then 0 else SizeOf(taken[..|taken| - 1]) + taken[|taken| - 1].size
  }

  /** Everything taken so far was within the ratio, and the counters count it. */
  ghost predicate Ledger(l: Limits, p: Progress) {
    && (forall t :: t in p.taken ==> WithinRatio(l, t))
    && p.totalFiles == |p.taken| && p.totalBytes == SizeOf(p.taken)
  }

  /** A member of some zip or rar archive, or some stream, has these two sizes. */
  ghost predicate Packs(c: Codec, compressed: nat, uncompressed: nat) {
    || (exists f, content, m :: (f == Zip || f == Rar) && c.list(f, content).Members?
          && m in c.list(f, content).members && m.compressed == compressed && m.declared == uncompressed)
    || (exists f, content: Bytes :: c.inflate(f, content).Some?
          && |content| == compressed && |c.inflate(f, content).value| == uncompressed)
  }

  /** A bomb reported has more than maxRatio bytes for every compressed byte, of which it has some. */
  ghost predicate RealBomb(c: Codec, l: Limits, o: Outcome) {
    o.Aborted? && o.error.ZipBomb? ==>
      && o.error.compressed > 0
      && o.error.uncompressed as real > l.maxRatio * o.error.compressed as real
      && Packs(c, o.error.compressed, o.error.uncompressed)
  }

  lemma LedgerAdd(l: Limits, p: Progress, t: Taken)
    requires Ledger(l, p) && WithinRatio(l, t)
    ensures Ledger(l, p.Add(t))
  {
    var q := p.Add(t);
    assert q.taken[..|q.taken| - 1] == p.taken;
  }

  lemma {:induction false} ExtractKeepsLedger(
    c: Codec, l: Limits, p: Progress, content: Bytes, name: string, depth: nat)
    requires Ledger(l, p)
    ensures var r := Extract(c, l, p, content, name, depth); Ledger(l, r.0) && RealBomb(c, l, r.1)
    decreases Max0(l.maxDepth + 1 - depth), 3
  {
    hide IsArchive, SafeName, BaseName, InnerName, OverRatio, WithinRatio, Packs;
    if depth <= l.maxDepth && IsArchive(name, content).Some? {
      var f := IsArchive(name, content).value;
      var q := p.(calls := p.calls + 1);
      if IsStream(f) {
        StreamKeepsLedger(c, l, f, q, content, name, depth);
      } else if Lists(f) && c.list(f, content).Members? {
        forall m | m in c.list(f, content).members && (f.Zip? || f.Rar?) ensures Packs(c, m.compressed, m.declared) {
          MemberPacks(c, f, content, m);
        }
        MembersKeepLedger(c, l, f, q, c.list(f, content).members, depth);
      }
    }
  }

  lemma MemberPacks(c: Codec, f: Format, content: Bytes, m: Member)
    requires (f == Zip || f == Rar) && c.list(f, content).Members? && m in c.list(f, content).members
    ensures Packs(c, m.compressed, m.declared)
  {
  }

  lemma {:induction false} StreamKeepsLedger(
    c: Codec, l: Limits, f: Format, p: Progress, content: Bytes, name: string, depth: nat)
    requires Ledger(l, p) && depth <= l.maxDepth && IsStream(f)
    ensures var r := Unpack(c, l, f, p, content, name, depth); Ledger(l, r.0) && RealBomb(c, l, r.1)
    decreases Max0(l.maxDepth + 1 - depth), 2
  {
    hide InnerName, OverRatio, Ledger, Packs;
    if c.inflate(f, content).Some? {
      var d := c.inflate(f, content).value;
      DenseIffOverRatio(l, |content|, |d|);
      StreamPacks(c, f, content);
      var t := FromStream(f, content, d);
      if !OverRatio(l, |content|, |d|) {
        LedgerAdd(l, p, t);
        ExtractKeepsLedger(c, l, p.Add(t), d, InnerName(f, name), depth + 1);
      }
    }
  }

  lemma StreamPacks(c: Codec, f: Format, content: Bytes)
    requires c.inflate(f, content).Some?
    ensures Packs(c, |content|, |c.inflate(f, content).value|)
  {
  }

  lemma {:induction false} MembersKeepLedger(
    c: Codec, l: Limits, f: Format, p: Progress, members: seq<Member>, depth: nat)
    requires Ledger(l, p) && depth <= l.maxDepth && Lists(f)
    requires forall m :: m in members && (f.Zip? || f.Rar?) ==> Packs(c, m.compressed, m.declared)
    ensures var r := ExtractMembers(c, l, f, p, members, depth); Ledger(l, r.0) && RealBomb(c, l, r.1)
    decreases Max0(l.maxDepth + 1 - depth), 1, |members|
  {
    hide SafeName, BaseName, OverRatio, Ledger, Packs, Extract, Judge;
    if members != [] {
      var m := members[0];
      JudgeMeasures(c, l, f, p, m);
      match Judge(c, l, f, p, m)
      case Skip(p') =>
        SameLedger(l, p, p');
        MembersKeepLedger(c, l, f, p', members[1..], depth);
      case Halt(_) =>
      case Take(d) =>
        var t := FromMember(f, m, d);
        LedgerAdd(l, p, t);
        ExtractKeepsLedger(c, l, p.Add(t), d, BaseName(m.name), depth + 1);
        var r := Extract(c, l, p.Add(t), d, BaseName(m.name), depth + 1);
        if r.1.Done? {
          MembersKeepLedger(c, l, f, r.0, members[1..], depth);
        }
    }
  }

  lemma SameLedger(l: Limits, p: Progress, q: Progress)
    requires q.taken == p.taken && q.totalFiles == p.totalFiles && q.totalBytes == p.totalBytes
    ensures Ledger(l, p) <==> Ledger(l, q)
  {
  }

  lemma JudgeMeasures(c: Codec, l: Limits, f: Format, p: Progress, m: Member)
    requires Lists(f)
    ensures match Judge(c, l, f, p, m)
      case Skip(p') => p'.taken == p.taken && p'.totalFiles == p.totalFiles && p'.totalBytes == p.totalBytes
      case Take(d) => WithinRatio(l, FromMember(f, m, d))
      case Halt(o) => o.Aborted? && o.error.ZipBomb? ==>
        && (f.Zip? || f.Rar?) && o.error == ZipBomb(m.compressed, m.declared)
        && m.compressed > 0 && m.declared as real > l.maxRatio * m.compressed as real
  {
    hide SafeName, OverRatio;
    DenseIffOverRatio(l, m.compressed, m.declared);
  }

  /** Over a whole inspection: whatever is taken from a zip or rar archive or inflated has at most
      maxRatio bytes for every compressed byte, or no compressed bytes; the counters are the number
      and the bytes of what was taken; and a bomb is reported only for a member or stream above the
      ratio, so with a ratio of one or more never for one that is no larger than its packed form. */
  lemma InspectWithinRatio(c: Codec, l: Limits, content: Bytes, name: string)
    ensures var (p, o) := Extract(c, l, START, content, name, 0);
      && (forall t :: t in p.taken && t.format in {Zip, Rar, Gzip, TarGz, Bzip2} ==>
            t.compressed == 0 || t.announced as real <= l.maxRatio * t.compressed as real)
      && p.totalFiles == |p.taken| && p.totalBytes == SizeOf(p.taken)
      && (o.Aborted? && o.error.ZipBomb? ==>
            && Packs(c, o.error.compressed, o.error.uncompressed)
            && o.error.compressed > 0 && o.error.uncompressed as real > l.maxRatio * o.error.compressed as real
            && (l.maxRatio >= 1.0 ==> o.error.uncompressed > o.error.compressed))
  {
    hide Packs, Extract, SizeOf;
    LedgerStart(l);
    ExtractKeepsLedger(c, l, START, content, name, 0);
    var r := Extract(c, l, START, content, name, 0);
    assert forall t :: t in r.0.taken ==> WithinRatio(l, t);
    if r.1.Aborted? && r.1.error.ZipBomb? && l.maxRatio >= 1.0 {
      AboveRatio(r.1.error.compressed as real, l.maxRatio);
    }
  }

  lemma LedgerStart(l: Limits)
    ensures Ledger(l, START)
  {
  }

  lemma AboveRatio(x: real, ratio: real)
    requires x >= 0.0 && ratio >= 1.0
    ensures ratio * x >= x
  {
    assert (ratio - 1.0) * x >= 0.0;
  }

  /** 7z is all or nothing: one unsafe name ends the inspection before anything is taken. */
  lemma SevenZipAllOrNothing(
    c: Codec, l: Limits, p: Progress, content: Bytes, name: string, depth: nat, m: Member)
    requires depth <= l.maxDepth && IsArchive(name, content) == Some(SevenZip)
    requires c.list(SevenZip, content).Members? && m in c.list(SevenZip, content).members
    requires !SafeName(m.name, c.blank)
    ensures Extract(c, l, p, content, name, depth) == (p.(calls := p.calls + 1), Aborted(PathTraversal))
  {
    hide IsArchive, SafeName;
  }

  /** What cannot be opened, unpacked or inflated. */
  predicate Unopenable(c: Codec, f: Format, content: Bytes) {
    if IsStream(f) then c.inflate(f, content).None?
    else
      match c.list(f, content)
      case Broken => true
      case Members(members, unpacks) =>
        f.SevenZip? && !unpacks && forall m :: m in members ==> SafeName(m.name, c.blank)
  }

  /** It is recorded once, under the archive's name, and the inspection goes on. */
  lemma UnopenableRecorded(
    c: Codec, l: Limits, p: Progress, f: Format, content: Bytes, name: string, depth: nat)
    requires depth <= l.maxDepth && IsArchive(name, content) == Some(f) && f != TarBz2 && Unopenable(c, f, content)
    ensures Extract(c, l, p, content, name, depth)
         == (p.(calls := p.calls + 1, errors := p.errors + [ExtractFailed(name)]), Done)
  {
    hide IsArchive, SafeName;
  }

  /** An archive of any listing format with one readable, safely named file within the limits. */
  predicate HoldsOneFile(c: Codec, l: Limits, f: Format, content: Bytes, m: Member) {
    && f in {Zip, Rar, Tar, SevenZip} && c.list(f, content) == Members([m], true)
    && !m.skipped && !m.link && SafeName(m.name, c.blank) && m.payload.Data?
    && l.maxFiles >= 1 && m.declared <= l.maxTotalSize && |m.payload.data| <= l.maxTotalSize
    && (f in {Zip, Rar} && m.compressed > 0 ==> m.declared as real <= l.maxRatio * m.compressed as real)
  }

  /** It is opened and the file inspected under its own name, with nothing else reported. */
  lemma OneFileInspected(c: Codec, l: Limits, f: Format, content: Bytes, name: string, m: Member)
    requires l.maxDepth >= 1 && IsArchive(name, content) == Some(f) && HoldsOneFile(c, l, f, content, m)
    requires IsArchive(BaseName(m.name), m.payload.data) == None
    requires c.inspect(m.payload.data, BaseName(m.name)).Some?
    ensures var (p, o) := Extract(c, l, START, content, name, 0);
      && o == Done && p.errors == []
      && p.components == c.inspect(m.payload.data, BaseName(m.name)).value
      && p.taken == [FromMember(f, m, m.payload.data)]
  {
    hide IsArchive, SafeName, BaseName, OverRatio;
    DenseIffOverRatio(l, m.compressed, m.declared);
    var q := START.(calls := 1);
    assert Judge(c, l, f, q, m) == Take(m.payload.data);
    var t := FromMember(f, m, m.payload.data);
    var q2 := q.Add(t);
    var r := Extract(c, l, q2, m.payload.data, BaseName(m.name), 1);
    assert r == (InspectFile(c, q2.(calls := 2), m.payload.data, BaseName(m.name)), Done);
    assert [m][1..] == [];
    assert ExtractMembers(c, l, f, r.0, [], 0) == (r.0, Done);
    assert ExtractMembers(c, l, f, q, [m], 0) == (r.0, Done);
    assert Opening(c, f, c.list(f, content)) == Done;
    assert [] + [t] == [t];
    assert [] + c.inspect(m.payload.data, BaseName(m.name)).value == c.inspect(m.payload.data, BaseName(m.name)).value;
  }

  /** In the formats read member by member, an unsafe name costs that member alone. */
  lemma UnsafeMemberSkipped(c: Codec, l: Limits, f: Format, p: Progress, m: Member, rest: seq<Member>, depth: nat)
    requires depth <= l.maxDepth && f in {Zip, Rar, Tar}
    requires !SafeName(m.name, c.blank) && !m.skipped && !m.link
    ensures Opening(c, f, Members([m] + rest, true)) == Done
    ensures ExtractMembers(c, l, f, p, [m] + rest, depth)
         == ExtractMembers(c, l, f, p.Error(BadName(m.name)), rest, depth)
  {
    hide SafeName;
    assert ([m] + rest)[1..] == rest;
  }

  /** So is a file in a single compressed stream, under the name without its extension. */
  lemma OneStreamInspected(c: Codec, l: Limits, f: Format, content: Bytes, name: string, d: Bytes)
    requires l.maxDepth >= 1 && IsArchive(name, content) == Some(f) && IsStream(f)
    requires c.inflate(f, content) == Some(d) && |d| <= l.maxTotalSize
    requires |content| > 0 ==> |d| as real <= l.maxRatio * |content| as real
    requires IsArchive(InnerName(f, name), d) == None && c.inspect(d, InnerName(f, name)).Some?
    ensures var (p, o) := Extract(c, l, START, content, name, 0);
      o == Done && p.errors == [] && p.components == c.inspect(d, InnerName(f, name)).value
  {
    hide IsArchive, InnerName, OverRatio;
    DenseIffOverRatio(l, |content|, |d|);
    var q := START.(calls := 1).Add(FromStream(f, content, d));
    var inner := InnerName(f, name);
    assert Extract(c, l, q, d, inner, 1) == (InspectFile(c, q.(calls := 2), d, inner), Done);
    assert [] + c.inspect(d, inner).value == c.inspect(d, inner).value;
  }

  /** Which formats are single streams. */
  lemma StreamFormats(f: Format)
    ensures IsStream(f) <==> f in {Gzip, TarGz, Bzip2}
  {
  }

  // ----- the report ------------------------------------------------------------------------

  /** The components in order, then the safety error if there was one, then the errors in order, and
      nothing else. */
  predicate Listing(report: seq<Reported>, components: seq<Component>, o: Outcome, errors: seq<Problem>) {
    var n := |components|;
    var aborts := if o.Aborted? then 1 else 0;
    && |report| == n + aborts + |errors|
    && (forall i :: 0 <= i < n ==> report[i] == FromFile(components[i]))
    && (o.Aborted? ==> report[n] == Safety(o.error))
    && (forall i :: n + aborts <= i < |report| ==> report[i] == Error(errors[i - n - aborts]))
  }

  lemma ReportLists(p: Progress, o: Outcome)
    ensures Listing(Report((p, o)), p.components, o, p.errors)
  {
  }

  /** What is reported of an archive whose tree is affordable: the components of every leaf and every
      problem of the tree. */
  lemma ReportOfTree(c: Codec, l: Limits, content: Bytes, name: string)
    requires HonestSizes(c) && l.maxTotalSize >= 0
    requires TreeAffordable(l, START, Unfold(c, l, content, name, 0))
    ensures var t := Unfold(c, l, content, name, 0);
      Listing(Report(Extract(c, l, START, content, name, 0)), Inspected(c, Leaves(t)), Done, Problems(c, t))
  {
    hide Extract, Unfold, TreeAffordable, Report, Inspected, Leaves, Problems, Listing;
    InspectRefinesTree(c, l, content, name);
    var r := Extract(c, l, START, content, name, 0);
    ReportLists(r.0, r.1);
    var t := Unfold(c, l, content, name, 0);
    assert [] + Inspected(c, Leaves(t)) == Inspected(c, Leaves(t));
    assert [] + Problems(c, t) == Problems(c, t);
  }
}
