/** Where a crash dump is stored: `/state/crash/<timestamp>.<pid>.<name>.nmd`, built digit by digit
    and then checked against path escapes. */
module DumpPath {
  import opened Arith
  import opened Decimal
  import opened Minidump
  import opened Results
  import opened Words

  datatype PathError = InvalidPathEscape | PathOutOfScope

  const ROOT: string := "/state/crash/"
  const SUFFIX: string := ".nmd"

  // ---------- Digits ----------

  function Pow10(k: nat): nat {
    if k == 0 then 1 else Pow10(k - 1) * 10
  }

  /** The digits still to be written; none for zero. */
  function Pending(value: nat): string {
    if value == 0 then "" else Dec(value)
  }

  lemma LastDigit(value: nat, tail: string)
    requires value > 0
    ensures Pending(value / 10) + ([Digit(value % 10)] + tail) == Pending(value) + tail
  {
    if value >= 10 {
      assert Dec(value / 10) + ([Digit(value % 10)] + tail) == Dec(value / 10) + [Digit(value % 10)] + tail;
    }
  }

  /** Digits fill a scratch buffer from its end. The guard on the buffer index is never what ends
      the loop, since the value has no more digits than the buffer has bytes. */
  method AppendDigits(out: string, number: nat, size: nat) returns (r: string)
    requires number < Pow10(size)
    ensures r == out + Dec(number)
  {
    hide Dec, Digit, Pending, Pow10;
    PendingEnds(number);
    if number == 0 {
      return out + "0";
    }
    var tmp := new char[size](_ => '0');
    var i, value := size, number;
    while value != 0 && i != 0
      invariant 0 <= i <= size && 0 <= value < Pow10(i)
      invariant Pending(value) + tmp[i..] == Pending(number)
      decreases i
    {
      ghost var tail := tmp[i..];
      i := i - 1;
      tmp[i] := Digit(value % 10);
      assert tmp[i..] == [Digit(value % 10)] + tail;
      LastDigit(value, tail);
      PowDrops(value, i);
      value := value / 10;
    }
    PowNone();
    r := out + tmp[i..];
  }

  lemma PendingEnds(number: nat)
    ensures Pending(0) == "" && Dec(0) == "0" && (number > 0 ==> Pending(number) == Dec(number))
  {
  }

  lemma PowDrops(value: nat, i: nat)
    requires value < Pow10(i + 1)
    ensures value / 10 < Pow10(i)
  {
    DivBelow(value, 10, Pow10(i));
  }

  lemma PowNone()
    ensures Pow10(0) == 1
  {
  }

  lemma BuffersSuffice()
    ensures Pow10(10) == 10_000_000_000 && Pow10(20) == 100_000_000_000_000_000_000
  {
    assert Pow10(3) == 1_000 && Pow10(6) == 1_000_000 && Pow10(9) == 1_000_000_000;
    assert Pow10(12) == 1_000_000_000_000;
    assert Pow10(15) == 1_000_000_000_000_000;
    assert Pow10(18) == 1_000_000_000_000_000_000;
  }

  method AppendU32(out: string, value: u32) returns (r: string)
    ensures r == out + Dec(value)
  {
    BuffersSuffice();
    r := AppendDigits(out, value, 10);
  }

  method AppendU64(out: string, value: u64) returns (r: string)
    ensures r == out + Dec(value)
  {
    BuffersSuffice();
    r := AppendDigits(out, value, 20);
  }

  // ---------- Checking ----------

  predicate Occurs(s: string, part: string, i: nat) {
    i + |part| <= |s| && s[i..i + |part|] == part
  }

  predicate Contains(s: string, part: string) {
    exists i :: 0 <= i < |s| && Occurs(s, part, i)
  }

  predicate EndsWith(s: string, part: string) {
    |part| <= |s| && s[|s| - |part|..] == part
  }

  predicate NoSlash(s: string) {
    forall i :: 0 <= i < |s| ==> s[i] != '/'
  }

  lemma OccursReads(s: string, part: string, i: nat, k: nat)
    requires Occurs(s, part, i) && k < |part|
    ensures s[i + k] == part[k]
  {
    assert s[i..i + |part|][k] == s[i + k];
  }

  function ValidateDumpPath(path: string): Option<PathError> {
    if !(ROOT <= path) then Some(PathOutOfScope)
    else if Contains(path, "/../") || Contains(path, "/./") || EndsWith(path, "/..") || EndsWith(path, "/.")
         || Contains(path, "//") then Some(InvalidPathEscape)
    else None
  }

  /** What stands between two neighbouring slashes, or behind the last one. */
  ghost predicate Component(path: string, i: nat, j: nat) {
    1 <= i <= j <= |path| && path[i - 1] == '/' && (j == |path| || path[j] == '/') && NoSlash(path[i..j])
  }

  lemma OccursAt(path: string, part: string, i: nat)
    requires part != "" && Occurs(path, part, i)
    ensures Contains(path, part)
  {
  }

  lemma InnerOccurs(path: string, i: nat, j: nat, part: string)
    requires Component(path, i, j) && j < |path| && path[i..j] == part
    ensures Contains(path, "/" + part + "/")
  {
    var whole := "/" + part + "/";
    assert path[i - 1..j + 1] == [path[i - 1]] + path[i..j] + [path[j]];
    OccursAt(path, whole, i - 1);
  }

  lemma EndOccurs(path: string, i: nat, part: string)
    requires Component(path, i, |path|) && path[i..|path|] == part
    ensures EndsWith(path, "/" + part)
  {
    assert path[i - 1..] == [path[i - 1]] + path[i..|path|];
  }

  /** A component that makes validation refuse the path. */
  lemma BadComponent(path: string, i: nat, j: nat)
    requires Component(path, i, j)
    ensures i == j < |path| ==> Contains(path, "//")
    ensures path[i..j] == "." ==> Contains(path, "/./") || EndsWith(path, "/.")
    ensures path[i..j] == ".." ==> Contains(path, "/../") || EndsWith(path, "/..")
  {
    hide Contains, EndsWith;
    Joined();
    var part := path[i..j];
    if j < |path| {
      InnerOccurs(path, i, j, part);
    } else {
      EndOccurs(path, i, part);
    }
  }

  lemma Joined()
    ensures "/" + "" + "/" == "//" && "/" + "." + "/" == "/./" && "/" + ".." + "/" == "/../"
    ensures "/" + "." == "/." && "/" + ".." == "/.."
  {
  }

  lemma EndComponent(path: string, part: string)
    requires EndsWith(path, "/" + part) && NoSlash(part)
    ensures var i := |path| - |part|; Component(path, i, |path|) && path[i..] == part
  {
    var i := |path| - |part|;
    assert path[i - 1..] == "/" + part;
    assert path[i..] == path[i - 1..][1..];
    assert path[i - 1] == path[i - 1..][0];
  }

  lemma InnerComponent(path: string, part: string) returns (i: nat)
    requires Contains(path, "/" + part + "/") && NoSlash(part)
    ensures i + |part| < |path| && Component(path, i, i + |part|) && path[i..i + |part|] == part
  {
    var whole := "/" + part + "/";
    var k :| 0 <= k < |path| && Occurs(path, whole, k);
    i := k + 1;
    OccursReads(path, whole, k, 0);
    OccursReads(path, whole, k, |part| + 1);
    assert path[i..i + |part|] == path[k..k + |whole|][1..|part| + 1] == part;
  }

  /** A path is refused as out of scope exactly if it does not start with the root, and of the others
      exactly those pass that have no empty component, except for a trailing slash, and none that
      is "." or "..". */
  lemma ValidateExactly(path: string)
    ensures ValidateDumpPath(path) == Some(PathOutOfScope) <==> !("/state/crash/" <= path)
    ensures ValidateDumpPath(path).None? <==>
      && "/state/crash/" <= path
      && forall i: nat, j: nat :: Component(path, i, j) ==>
           path[i..j] != "." && path[i..j] != ".." && (i == j ==> j == |path|)
  {
    hide Contains, EndsWith;
    Joined();
    forall i: nat, j: nat | Component(path, i, j)
      ensures i == j < |path| ==> Contains(path, "//")
      ensures path[i..j] == "." ==> Contains(path, "/./") || EndsWith(path, "/.")
      ensures path[i..j] == ".." ==> Contains(path, "/../") || EndsWith(path, "/..")
    {
      BadComponent(path, i, j);
    }
    if Contains(path, "//") {
      var i := InnerComponent(path, "");
    }
    if Contains(path, "/./") {
      var i := InnerComponent(path, ".");
    }
    if Contains(path, "/../") {
      var i := InnerComponent(path, "..");
    }
    if EndsWith(path, "/.") {
      EndComponent(path, ".");
    }
    if EndsWith(path, "/..") {
      EndComponent(path, "..");
    }
  }

  // ---------- The path ----------

  function Sanitized(name: seq<byte>): string {
    if name == [] then "unknown" else seq(|name|, i requires 0 <= i < |name| => Kept(name[i]))
  }

  function Kept(b: byte): char {
    if Plain(b) then b as char else '_'
  }

  function PathOf(timestamp: u64, pid: u32, name: seq<byte>): string {
    ROOT + (Dec(timestamp) + ("." + (Dec(pid) + ("." + (Sanitized(name) + SUFFIX)))))
  }

  lemma TailHasNoSlash(timestamp: u64, pid: u32, name: seq<byte>)
    ensures NoSlash(Dec(timestamp) + ("." + (Dec(pid) + ("." + (Sanitized(name) + SUFFIX)))))
  {
    NoSlashPieces(timestamp, name);
    NoSlashPieces(pid, name);
    hide NoSlash, Dec, Sanitized;
    NoSlashJoins(Sanitized(name), SUFFIX);
    NoSlashJoins(".", Sanitized(name) + SUFFIX);
    NoSlashJoins(Dec(pid), "." + (Sanitized(name) + SUFFIX));
    NoSlashJoins(".", Dec(pid) + ("." + (Sanitized(name) + SUFFIX)));
    NoSlashJoins(Dec(timestamp), "." + (Dec(pid) + ("." + (Sanitized(name) + SUFFIX))));
  }

  lemma NoSlashPieces(n: nat, name: seq<byte>)
    ensures NoSlash(Dec(n)) && NoSlash(Sanitized(name)) && NoSlash(SUFFIX) && NoSlash(".")
  {
    hide Dec;
    DecReads(n);
  }

  lemma NoSlashJoins(a: string, b: string)
    requires NoSlash(a) && NoSlash(b)
    ensures NoSlash(a + b)
  {
  }

  /** A path whose only slashes are the root's. */
  predicate RootSlashes(path: string) {
    forall i :: 0 <= i < |path| && path[i] == '/' ==> i == 0 || i == 6 || i == 12
  }

  lemma SlashesAreRoots(tail: string)
    requires NoSlash(tail)
    ensures RootSlashes(ROOT + tail)
  {
    var path := ROOT + tail;
    assert forall i :: 0 <= i < 13 ==> path[i] == ROOT[i];
    assert forall i :: 13 <= i < |path| ==> path[i] == tail[i - 13];
  }

  lemma TwoSlashes(path: string, part: string, gap: nat)
    requires 1 <= gap <= 3 && |part| == gap + 1 && part[0] == '/' && part[gap] == '/' && RootSlashes(path)
    ensures !Contains(path, part)
  {
    forall i | 0 <= i < |path|
      ensures !Occurs(path, part, i)
    {
      if Occurs(path, part, i) {
        OccursReads(path, part, i, 0);
        OccursReads(path, part, i, gap);
      }
    }
  }

  /** Behind the root, a path without slashes cannot hold any of the refused patterns. */
  lemma NoEscape(tail: string)
    requires NoSlash(tail) && |tail| >= 4 && tail[|tail| - 4..] == SUFFIX
    ensures ValidateDumpPath(ROOT + tail).None?
  {
    var path := ROOT + tail;
    assert path[..13] == ROOT;
    SlashesAreRoots(tail);
    TwoSlashes(path, "/../", 3);
    TwoSlashes(path, "/./", 2);
    TwoSlashes(path, "//", 1);
    hide Contains;
    assert path[|path| - 1] == tail[|tail| - 1] == SUFFIX[3];
  }

  /** No timestamp, pid or name makes the call fail, and the path is the one specified. */
  method NormalizeDumpPath(timestamp: u64, pid: u32, name: seq<byte>) returns (r: Result<string, PathError>)
    ensures r == Ok(PathOf(timestamp, pid, name))
  {
    hide Dec, Plain, ValidateDumpPath, PathOf;
    var sanitized := "";
    for i := 0 to |name|
      invariant |sanitized| == i && forall j :: 0 <= j < i ==> sanitized[j] == Kept(name[j])
    {
      sanitized := sanitized + [if Plain(name[i]) then name[i] as char else '_'];
    }
    if sanitized == "" {
      sanitized := "unknown";
    }
    assert sanitized == Sanitized(name);
    var out := AppendU64(ROOT, timestamp);
    out := out + ".";
    out := AppendU32(out, pid);
    out := out + "." + sanitized + SUFFIX;
    PathFlat(timestamp, pid, name);
    match ValidateDumpPath(out) {
      case Some(e) => r := Err(e);
      case None => r := Ok(out);
    }
    PathIsSafe(timestamp, pid, name);
  }

  lemma PathFlat(timestamp: u64, pid: u32, name: seq<byte>)
    ensures ROOT + Dec(timestamp) + "." + Dec(pid) + "." + Sanitized(name) + SUFFIX == PathOf(timestamp, pid, name)
  {
    hide Dec, Sanitized;
  }

  lemma PathIsSafe(timestamp: u64, pid: u32, name: seq<byte>)
    ensures ValidateDumpPath(PathOf(timestamp, pid, name)).None?
  {
    hide Dec, Sanitized, ValidateDumpPath;
    TailHasNoSlash(timestamp, pid, name);
    NoEscape(Dec(timestamp) + ("." + (Dec(pid) + ("." + (Sanitized(name) + SUFFIX)))));
  }

  // ---------- Reading a path back ----------

  /** Where the first dot is, or the length when there is none. */
  function FirstDot(s: string): (n: nat)
    ensures n <= |s|
  {
    if s == "" || s[0] == '.' then 0 else 1 + FirstDot(s[1..])
  }

  lemma {:induction false} DotAfter(digits: string, rest: string)
    requires forall i :: 0 <= i < |digits| ==> digits[i] != '.'
    ensures FirstDot(digits + ("." + rest)) == |digits|
    decreases |digits|
  {
    var s := digits + ("." + rest);
    if digits == "" {
      assert s[0] == '.';
    } else {
      DotAfter(digits[1..], rest);
      assert s[1..] == digits[1..] + ("." + rest);
    }
  }

  datatype Entry = Entry(timestamp: int, pid: int, name: string)

  /** The fields of a path: two numbers up to the first two dots, then the name up to the suffix. */
  function ReadPath(path: string): Option<Entry> {
    if |path| < |ROOT| then None
    else
      var s := path[|ROOT|..];
      var i := FirstDot(s);
      if i == |s| then None
      else
        var t := s[i + 1..];
        var j := FirstDot(t);
        if j + 5 > |t| then None
        else Some(Entry(Value(s[..i]), Value(t[..j]), t[j + 1..|t| - 4]))
  }

  lemma DigitsHaveNoDot(n: nat)
    ensures forall i :: 0 <= i < |Dec(n)| ==> Dec(n)[i] != '.'
  {
    DecReads(n);
  }

  /** Timestamp, pid and sanitised name can be read back from the path. */
  lemma PathReads(timestamp: u64, pid: u32, name: seq<byte>)
    ensures ReadPath(PathOf(timestamp, pid, name)) == Some(Entry(timestamp, pid, Sanitized(name)))
    ensures "/state/crash/" <= PathOf(timestamp, pid, name) && EndsWith(PathOf(timestamp, pid, name), ".nmd")
  {
    hide Dec, Sanitized, Value, FirstDot;
    var e := Sanitized(name) + SUFFIX;
    var t := Dec(pid) + ("." + e);
    var s := Dec(timestamp) + ("." + t);
    var path := PathOf(timestamp, pid, name);
    assert path == ROOT + s;
    assert path[|ROOT|..] == s;
    DigitsHaveNoDot(timestamp);
    DigitsHaveNoDot(pid);
    DotAfter(Dec(timestamp), t);
    DotAfter(Dec(pid), e);
    var i, j := |Dec(timestamp)|, |Dec(pid)|;
    assert s[..i] == Dec(timestamp) && s[i + 1..] == t;
    assert t[..j] == Dec(pid) && t[j + 1..|t| - 4] == Sanitized(name);
    assert path[|path| - 4..] == SUFFIX;
    DecReads(timestamp);
    DecReads(pid);
  }

  /** The characters a name may keep. */
  ghost predicate Keepable(c: char) {
    'A' <= c <= 'Z' || 'a' <= c <= 'z' || '0' <= c <= '9' || c == '.' || c == '-' || c == '_'
  }

  /** The bytes of a name as characters. */
  function Spelled(name: seq<byte>): (s: string)
    ensures |s| == |name| && forall i :: 0 <= i < |s| ==> s[i] == name[i] as char
  {
    seq(|name|, i requires 0 <= i < |name| => name[i] as char)
  }

  /** What the path says of the name: character for character the same, but for an underscore in
      place of each that may not stand there; and "unknown" for no name at all. So the name itself
      is read back if and only if it is not empty and has nothing but letters, digits, '.', '-', '_'. */
  lemma NameReads(timestamp: u64, pid: u32, name: seq<byte>)
    ensures ReadPath(PathOf(timestamp, pid, name)).Some?
    ensures var read := ReadPath(PathOf(timestamp, pid, name)).value.name;
      && (name == [] ==> read == "unknown")
      && (name != [] ==> |read| == |name| && forall i :: 0 <= i < |name| ==>
            read[i] == if Keepable(name[i] as char) then name[i] as char else '_')
      && (read == Spelled(name) <==> name != [] && forall i :: 0 <= i < |name| ==> Keepable(name[i] as char))
  {
    hide ReadPath, PathOf;
    PathReads(timestamp, pid, name);
    var read := Sanitized(name);
    if name != [] && forall i :: 0 <= i < |name| ==> Keepable(name[i] as char) {
      assert read == Spelled(name);
    }
  }

  /** Two names are told apart only where one of them has a character that is kept. */
  ghost predicate Alike(n1: seq<byte>, n2: seq<byte>) {
    |n1| == |n2| && forall i :: 0 <= i < |n1| ==> n1[i] == n2[i] || (Blank(n1[i]) && Blank(n2[i]))
  }

  ghost predicate Blank(b: byte) {
    b as char == '_' || !Keepable(b as char)
  }

  /** "unknown" */
  const UNKNOWN: seq<byte> := [117, 110, 107, 110, 111, 119, 110]

  lemma SanitizedAlike(n1: seq<byte>, n2: seq<byte>)
    requires n1 != [] && n2 != []
    ensures Sanitized(n1) == Sanitized(n2) <==> Alike(n1, n2)
  {
    if Sanitized(n1) == Sanitized(n2) {
      forall i | 0 <= i < |n1|
        ensures n1[i] == n2[i] || (Blank(n1[i]) && Blank(n2[i]))
      {
        assert Sanitized(n1)[i] == Sanitized(n2)[i];
      }
    }
  }

  lemma UnknownIsKept(name: seq<byte>)
    requires name != []
    ensures Sanitized(name) == "unknown" <==> name == UNKNOWN
  {
    assert Sanitized(UNKNOWN) == "unknown";
    SanitizedAlike(name, UNKNOWN);
  }

  /** Two crashes share a path if and only if timestamp and pid agree and the names do, wherever
      either has a character of its own in the path; no name counts as "unknown". */
  lemma PathsCollideExactly(t1: u64, p1: u32, n1: seq<byte>, t2: u64, p2: u32, n2: seq<byte>)
    ensures PathOf(t1, p1, n1) == PathOf(t2, p2, n2) <==>
      t1 == t2 && p1 == p2 && Alike(if n1 == [] then UNKNOWN else n1, if n2 == [] then UNKNOWN else n2)
  {
    hide Dec, ReadPath, Alike;
    PathReads(t1, p1, n1);
    PathReads(t2, p2, n2);
    UnknownIsKept(UNKNOWN);
    SanitizedAlike(if n1 == [] then UNKNOWN else n1, if n2 == [] then UNKNOWN else n2);
    hide Sanitized, PathOf;
    EmptyIsUnknown();
  }

  lemma EmptyIsUnknown()
    ensures Sanitized([]) == "unknown"
  {
  }
}
