/** Archive detection and member-name checks: the state-free helpers of the archive inspector. */
module ArchiveFormats {
  import opened Basics
  import opened Wrappers
  import opened Utf8

  type Bytes = seq<Byte>

  datatype Format = Zip | SevenZip | Rar | Gzip | Bzip2 | Tar | TarGz | TarBz2

  function Lower(s: string): (r: string)
    ensures |r| == |s|
  {
    seq(|s|, i requires 0 <= i < |s| => if 'A' <= s[i] <= 'Z' then (s[i] as int + 32) as char else s[i])
  }

  function Split(s: string, sep: char): (parts: seq<string>)
    ensures parts != []
    ensures forall p :: p in parts ==> sep !in p
  {
    if s == "" then [""]
    else
      var rest := Split(s[1..], sep);
      if s[0] == sep then [""] + rest else [[s[0]] + rest[0]] + rest[1..]
  }

  /** The last path component that is neither empty nor ".", or "". */
  function BaseName(path: string): string { LastNamed(Split(path, '/')) }

  function LastNamed(parts: seq<string>): string {
    if parts == [] then ""
    else if parts[|parts| - 1] !in {"", "."} then parts[|parts| - 1]
    else LastNamed(parts[..|parts| - 1])
  }

  /** Position of the last dot, or -1. */
  function LastDot(s: string): (i: int)
    ensures -1 <= i < |s|
  {
    if s == "" then -1 else if s[|s| - 1] == '.' then |s| - 1 else LastDot(s[..|s| - 1])
  }

  function Suffix(path: string): string {
    var name := BaseName(path);
    var i := LastDot(name);
    if 0 < i < |name| - 1 then name[i..] else ""
  }

  /** content[:n] == magic; a shorter content is compared whole. */
  predicate Prefix(content: Bytes, n: nat, magic: Bytes) {
    content[..if n <= |content| then n else |content|] == magic
  }

  function ByMagic(content: Bytes): Option<Format> {
    if Prefix(content, 4, [0x50, 0x4B, 0x03, 0x04]) then Some(Zip)
    else if Prefix(content, 6, [0x37, 0x7A, 0xBC, 0xAF, 0x27, 0x1C]) then Some(SevenZip)
    else if Prefix(content, 7, [0x52, 0x61, 0x72, 0x21, 0x1A, 0x07, 0x00])
         || Prefix(content, 8, [0x52, 0x61, 0x72, 0x21, 0x1A, 0x07, 0x01, 0x00]) then Some(Rar)
    else if Prefix(content, 2, [0x1F, 0x8B]) then Some(Gzip)
    else if Prefix(content, 5, [0x42, 0x5A, 0x68]) then Some(Bzip2)
    else if |content| > 262 && content[257..262] == [0x75, 0x73, 0x74, 0x61, 0x72] then Some(Tar)
    else None
  }

  function ByName(filename: string): Option<Format> {
    var ext := Lower(Suffix(filename));
    if ext == ".zip" then Some(Zip)
    else if ext == ".7z" then Some(SevenZip)
    else if ext == ".rar" then Some(Rar)
    else if ext in {".gz", ".gzip"} then Some(Gzip)
    else if ext == ".tar" then Some(Tar)
    else if ext == ".tgz" || EndsWith(Lower(filename), ".tar.gz") then Some(TarGz)
    else if ext == ".bz2" then Some(Bzip2)
    else if EndsWith(Lower(filename), ".tar.bz2") then Some(TarBz2)
    else None
  }

  function IsArchive(filename: string, content: Bytes): Option<Format> {
    var magic := ByMagic(content);
    if magic.Some? then magic else ByName(filename)
  }

  /** The bzip2 signature is three bytes but five are compared with it, so content recognises a
      bzip2 stream only if it is the bare signature; anything longer needs the file name. */
  lemma Bzip2MagicIffBareSignature(content: Bytes)
    ensures ByMagic(content) == Some(Bzip2) <==> content == [0x42, 0x5A, 0x68]
  {
    if |content| <= 5 {
      assert content[..|content|] == content;
    }
    if content == [0x42, 0x5A, 0x68] {
      assert content[..2][0] == 0x42;
    }
  }

  // ----- member names ----------------------------------------------------------------------

  /** CON, PRN, AUX, NUL, COM1-9 and LPT1-9, alone or before a dot (or a final line feed). */
  predicate Reserved(part: string) {
    var p := Lower(part);
    && |p| >= 3
    && ( (p[..3] in {"con", "prn", "aux", "nul"} && Stops(p[3..]))
      || (p[..3] in {"com", "lpt"} && |p| >= 4 && '1' <= p[3] <= '9' && Stops(p[4..])))
  }

  predicate Stops(rest: string) { rest == "" || rest[0] == '.' || rest == "\n" }

  function Slashes(name: string): (r: string)
    ensures |r| == |name|
    ensures forall i :: 0 <= i < |name| ==> r[i] == if name[i] == '\\' then '/' else name[i]
  {
    seq(|name|, i requires 0 <= i < |name| => if name[i] == '\\' then '/' else name[i])
  }

  predicate Absolute(name: string) {
    var n := Slashes(name);
    (n != "" && n[0] == '/') || (|n| >= 3 && n[1..3] == ":/")
  }

  /** Whether the extractor accepts a member name; `blank` are the characters strip removes. */
  predicate SafeName(name: string, blank: char -> bool) {
    && (exists i :: 0 <= i < |name| && !blank(name[i]))
    && !Absolute(name)
    && PartsSafe(Split(Slashes(name), '/'))
  }

  predicate PartsSafe(parts: seq<string>) { forall part :: part in parts ==> part != ".." && !Reserved(part) }

  /** Resolving a path below a root, None once it climbs out: the components left to enter. */
  function Resolve(parts: seq<string>, below: seq<string>): Option<seq<string>> {
    if parts == [] then Some(below)
    else if parts[0] in {"", "."} then Resolve(parts[1..], below)
    else if parts[0] == ".." then
      if below == [] then None else Resolve(parts[1..], below[..|below| - 1])
    else Resolve(parts[1..], below + [parts[0]])
  }

  /** On a POSIX system only the slash separates components. */
  function ResolvePosix(name: string, root: seq<string>): Option<seq<string>> {
    Resolve(Split(name, '/'), root)
  }

  /** A drive prefix, as in `C:x`. */
  predicate HasDrive(name: string) { |name| >= 2 && name[1] == ':' }

  /** On Windows both separators count, and a name with a drive prefix is resolved against the
      current directory of that drive instead of the root. */
  function ResolveWindows(name: string, root: seq<string>): Option<seq<string>> {
    if HasDrive(name) then None else Resolve(Split(Slashes(name), '/'), root)
  }

  /** An accepted name never leaves the directory it is extracted under on a POSIX system; on
      Windows it stays below exactly when it has no drive prefix, and some accepted names have one. */
  lemma SafeNameStaysBelow(name: string, blank: char -> bool, root: seq<string>)
    requires SafeName(name, blank)
    ensures var r := ResolvePosix(name, root); r.Some? && root <= r.value
    ensures var r := ResolveWindows(name, root); (r.Some? && root <= r.value) <==> !HasDrive(name)
  {
    BareParts(name);
    ResolveStaysBelow(Split(name, '/'), root);
    ResolveStaysBelow(Split(Slashes(name), '/'), root);
  }

  /** Splitting at backslashes too leaves the parts without one as they are. */
  lemma {:induction false} BareParts(name: string)
    ensures var a, b := Split(name, '/'), Split(Slashes(name), '/');
      && ('\\' !in a[0] ==> a[0] == b[0])
      && (forall p :: p in a[1..] && '\\' !in p ==> p in b[1..])
      && (".." in a ==> ".." in b)
  {
    if name != "" {
      BareParts(name[1..]);
      assert Slashes(name)[1..] == Slashes(name[1..]);
      var a, b := Split(name[1..], '/'), Split(Slashes(name[1..]), '/');
      assert a == [a[0]] + a[1..] && b == [b[0]] + b[1..];
    }
    var a, b := Split(name, '/'), Split(Slashes(name), '/');
    assert a == [a[0]] + a[1..] && b == [b[0]] + b[1..];
  }

  lemma {:induction false} SplitWhole(s: string, sep: char)
    requires sep !in s
    ensures Split(s, sep) == [s]
  {
    if s != "" {
      SplitWhole(s[1..], sep);
      assert s == [s[0]] + s[1..];
    }
  }

  /** `C:..` is accepted, and on Windows it is not resolved below the root. */
  lemma DriveNameAccepted(blank: char -> bool, root: seq<string>)
    requires !blank('C')
    ensures SafeName("C:..", blank) && ResolveWindows("C:..", root) == None
  {
    hide Split;
    var name := "C:..";
    assert Slashes(name) == name;
    SplitWhole(name, '/');
    assert !blank(name[0]) && name[1..3][1] == '.' && Lower(name)[..3][1] == ':';
  }

  lemma {:induction false} ResolveStaysBelow(parts: seq<string>, root: seq<string>)
    requires ".." !in parts
    ensures var r := Resolve(parts, root); r.Some? && root <= r.value
  {
    if parts != [] {
      ResolveStaysBelow(parts[1..], if parts[0] in {"", "."} then root else root + [parts[0]]);
    }
  }
}
