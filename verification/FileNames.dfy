/** From the components of a path to the eleven characters of a directory record. */
module FileNames {
  import opened Types
  import opened DirectoryRecords
  import opened Directories

  const SPACE: byte := 0x20
  const DOT: byte := 0x2E
  const SLASH: byte := 0x2F

  /** Upper case; anything not allowed becomes a capital X. */
  function ValidateChar(c: byte): byte {
    if c < 0x20 || (c > 0x20 && c < 0x30 && c != 0x2D) || (c > 0x39 && c < 0x41)
       || (c > 0x5A && c < 0x61 && c != 0x5F) || (c > 0x7A && c != 0x7E) then 0x58
    else if c >= 0x61 && c <= 0x7A then c - 32
    else c
  }

  /** Character i of a zero-terminated string. */
  function CharAt(s: seq<byte>, i: nat): byte {
    if i < |s| then s[i] else 0
  }

  predicate EndsComponent(c: byte) { c == 0 || c == SPACE || c == SLASH }

  /** Where the component that starts at i ends. */
  function ComponentEnd(s: seq<byte>, i: nat): (e: nat)
    requires i <= |s|
    ensures i <= e <= |s| && EndsComponent(CharAt(s, e))
    ensures forall j | i <= j < e :: !EndsComponent(s[j])
    decreases |s| - i
  {
    if EndsComponent(CharAt(s, i)) then i else ComponentEnd(s, i + 1)
  }

  /** The position of the first dot, or the length. */
  function FirstDot(c: seq<byte>): (d: nat)
    ensures d <= |c| && (d < |c| ==> c[d] == DOT)
    ensures forall j | 0 <= j < d :: c[j] != DOT
  {
    if c == [] then 0 else
      var n := |c| - 1;
      var d := FirstDot(c[..n]);
      if d < n || c[n] == DOT then d else n + 1
  }

  /** At most n validated characters, filled up with spaces. */
  function Field(s: seq<byte>, n: nat): (r: seq<byte>)
    ensures |r| == n
  {
    seq(n, (k: nat) requires k < n => if k < |s| then ValidateChar(s[k]) else SPACE)
  }

  /** The part before the first dot, and the part behind it. */
  function Base(c: seq<byte>): seq<byte> { c[..FirstDot(c)] }

  function Extension(c: seq<byte>): seq<byte> { c[Min(FirstDot(c) + 1, |c|)..] }

  /** Eight characters of one part, three of the other. */
  function Joined(base: seq<byte>, ext: seq<byte>): Name { Field(base, 8) + Field(ext, 3) }

  function FatName(component: seq<byte>): Name { Joined(Base(component), Extension(component)) }

  function DotName(dots: nat): Name
    requires dots <= 2
  {
    seq(11, (k: nat) requires k < 11 => if k < dots then DOT else SPACE)
  }

  lemma SplitStep(c: seq<byte>, x: byte)
    ensures if Dotted(c) then Base(c + [x]) == Base(c) && Extension(c + [x]) == Extension(c) + [x] && Dotted(c + [x])
            else if x == DOT then Base(c + [x]) == Base(c) && Extension(c + [x]) == Extension(c) && Dotted(c + [x])
            else Base(c + [x]) == Base(c) + [x] && Extension(c + [x]) == Extension(c) && !Dotted(c + [x])
  {
    assert (c + [x])[..|c|] == c;
    var d := FirstDot(c);
    assert FirstDot(c + [x]) == if d < |c| || x == DOT then d else |c| + 1;
    assert (c + [x])[..d] == c[..d];
    if d < |c| {
      assert (c + [x])[d + 1..] == c[d + 1..] + [x];
    } else {
      assert c[..d] == c && (c + [x])[..|c| + 1] == c + [x];
    }
  }

  predicate Dotted(c: seq<byte>) { FirstDot(c) < |c| }

  /** Position of the next character in the record name: just behind what its part holds. */
  function NextSlot(c: seq<byte>): nat {
    if Dotted(c) then 8 + Min(|Extension(c)|, 3) else Min(|Base(c)|, 8)
  }

  lemma JoinedBase(base: seq<byte>, x: byte, ext: seq<byte>)
    ensures Joined(base + [x], ext) == if |base| < 8 then Joined(base, ext)[|base| := ValidateChar(x)] else Joined(base, ext)
  {
    hide ValidateChar;
    assert Field(base + [x], 8) == if |base| < 8 then Field(base, 8)[|base| := ValidateChar(x)] else Field(base, 8);
  }

  lemma JoinedExtension(base: seq<byte>, ext: seq<byte>, x: byte)
    ensures Joined(base, ext + [x]) == if |ext| < 3 then Joined(base, ext)[8 + |ext| := ValidateChar(x)] else Joined(base, ext)
  {
    hide ValidateChar;
    assert Field(ext + [x], 3) == if |ext| < 3 then Field(ext, 3)[|ext| := ValidateChar(x)] else Field(ext, 3);
  }

  /** Storing one more character of a component, unless it is the first dot or its part is full. */
  method StoreChar(fat: Name, ghost component: seq<byte>, x: byte, dot: bool, c: nat) returns (fat': Name, dot': bool, c': nat)
    requires fat == FatName(component) && dot == Dotted(component) && c == NextSlot(component)
    ensures fat' == FatName(component + [x]) && dot' == Dotted(component + [x]) && c' == NextSlot(component + [x])
  {
    hide ValidateChar, Joined, Base, Extension, Dotted;
    SplitStep(component, x);
    JoinedBase(Base(component), x, Extension(component));
    JoinedExtension(Base(component), Extension(component), x);
    fat', dot', c' := fat, dot, c;
    if x == DOT && !dot {
      ExtensionNeedsDot(component);
      dot', c' := true, 8;
    } else if dot {
      if c <= 10 {
        fat', c' := fat[c := ValidateChar(x)], c + 1;
      }
    } else {
      if c <= 7 {
        fat', c' := fat[c := ValidateChar(x)], c + 1;
      }
    }
  }

  lemma ExtensionNeedsDot(c: seq<byte>)
    ensures !Dotted(c) ==> Extension(c) == []
  {}

  function Blank(): Name { seq(11, _ => SPACE) }

  lemma BlankJoined()
    ensures Blank() == Joined([], [])
  {
    hide ValidateChar;
    assert forall k | 0 <= k < 11 :: (Field([], 8) + Field([], 3))[k] == SPACE;
  }

  lemma BlankIsNoName()
    ensures Blank() == FatName([]) && !Dotted([]) && NextSlot([]) == 0
  {
    assert Base([]) == [] && Extension([]) == [];
    BlankJoined();
  }

  /** The characters of the component that starts at the given place. */
  method StoreComponent(filename: seq<byte>, start: nat) returns (fat: Name, next: nat)
    requires start <= |filename|
    ensures next == ComponentEnd(filename, start) && fat == FatName(filename[start..next])
  {
    hide FatName, Dotted, NextSlot, EndsComponent;
    fat, next := Blank(), start;
    var dot, c := false, 0;
    BlankIsNoName();
    assert filename[start..start] == [];
    while !EndsComponent(CharAt(filename, next))
      invariant start <= next <= |filename| && ComponentEnd(filename, next) == ComponentEnd(filename, start)
      invariant fat == FatName(filename[start..next])
      invariant dot == Dotted(filename[start..next]) && c == NextSlot(filename[start..next])
      decreases |filename| - next
    {
      assert filename[start..next + 1] == filename[start..next] + [filename[next]];
      fat, dot, c := StoreChar(fat, filename[start..next], filename[next], dot, c);
      next := next + 1;
    }
  }

  /**
   The next component of a path in the record's form, and where the following
   one starts; -1 when there is no name to be had. A component that starts with
   a dot is taken as "." or "..", whatever follows.
   */
  function Taken(s: seq<byte>, start: nat): (r: (Name, int))
    requires start <= |s|
    ensures r.1 == -1 || start < r.1 <= |s|
  {
    if CharAt(s, start) == DOT then
      var dots := if CharAt(s, start + 1) == DOT then 2 else 1;
      (DotName(dots), if CharAt(s, start + dots) == 0 then start + dots else start + dots + 1)
    else
      var end := ComponentEnd(s, start);
      (FatName(s[start..end]), if end == start then -1 else if CharAt(s, end) == 0 then end else end + 1)
  }

  method NormalToFatName(filename: seq<byte>, start: nat) returns (fat: Name, next: int)
    requires start <= |filename|
    ensures (fat, next) == Taken(filename, start)
  {
    var i, named := start, true;
    if CharAt(filename, start) == DOT {
      fat := Blank();
      fat := fat[0 := DOT];
      if CharAt(filename, start + 1) == DOT {
        fat := fat[1 := DOT];
        i := start + 2;
        assert fat == DotName(2);
      } else {
        i := start + 1;
        assert fat == DotName(1);
      }
    } else {
      hide DotName, FatName;
      fat, i := StoreComponent(filename, start);
      named := i > start;
    }
    next := if !named then -1 else if CharAt(filename, i) == 0 then i else i + 1;
  }

  /** The last of the names taken from i on and how many there are, given one and a count to begin with. */
  function LastTaken(s: seq<byte>, i: nat, name: Name, count: nat): (r: (Name, nat))
    requires i <= |s|
    ensures r.1 >= count
    decreases |s| - i
  {
    var t := Taken(s, i);
    if t.1 < 0 then (name, count) else LastTaken(s, t.1, t.0, count + 1)
  }

  function PathStart(s: seq<byte>): nat { if CharAt(s, 0) == SLASH then 1 else 0 }

  /** The name at the end of a path; the number of names is counted in 8 bits. */
  method GetFatFileName(filename: seq<byte>) returns (fat: Name, r: int)
    ensures var last := LastTaken(filename, PathStart(filename), seq(11, _ => 0), 0);
      fat == last.0 && r == if last.1 % 256 != 0 then 1 else 0
  {
    hide Taken, LastTaken;
    fat := seq(11, _ => 0);
    ghost var zeros: Name := fat;
    ghost var count := 0;
    var nn, at := 0, PathStart(filename);
    var name, next := NormalToFatName(filename, at);
    while next >= 0
      invariant at <= |filename| && (name, next) == Taken(filename, at)
      invariant nn == count % 256 && LastTaken(filename, at, fat, count) == LastTaken(filename, PathStart(filename), zeros, 0)
      decreases |filename| - at
    {
      LastStep(filename, at, fat, count);
      fat, nn, at := name, (nn + 1) % 256, next;
      count := count + 1;
      name, next := NormalToFatName(filename, at);
    }
    EndStep(filename, at, fat, count);
    r := if nn != 0 then 1 else 0;
  }

  lemma LastStep(s: seq<byte>, i: nat, name: Name, count: nat)
    requires i <= |s| && Taken(s, i).1 >= 0
    ensures LastTaken(s, i, name, count) == LastTaken(s, Taken(s, i).1, Taken(s, i).0, count + 1)
  {}

  lemma EndStep(s: seq<byte>, i: nat, name: Name, count: nat)
    requires i <= |s| && Taken(s, i).1 < 0
    ensures LastTaken(s, i, name, count) == (name, count)
  {}

  /** A component as a user means it. */
  predicate Clean(c: seq<byte>) {
    c != [] && c[0] != DOT && forall j | 0 <= j < |c| :: !EndsComponent(c[j])
  }

  /** A component of a path: a name, or one of the two dot names. */
  predicate IsComponent(c: seq<byte>) { Clean(c) || c == [DOT] || c == [DOT, DOT] }

  /** The record a component names. */
  function RecordName(c: seq<byte>): Name {
    if c == [DOT] then DotName(1) else if c == [DOT, DOT] then DotName(2) else FatName(c)
  }

  /** Components with slashes between them. */
  function Path(cs: seq<seq<byte>>): seq<byte>
    requires cs != []
  {
    if |cs| == 1 then cs[0] else cs[0] + [SLASH] + Path(cs[1..])
  }

  lemma {:induction false} CleanEnds(s: seq<byte>, i: nat, end: nat)
    requires i <= end <= |s| && EndsComponent(CharAt(s, end))
    requires forall j | i <= j < end :: !EndsComponent(s[j])
    ensures ComponentEnd(s, i) == end
    decreases end - i
  {
    if i < end { CleanEnds(s, i + 1, end); }
  }

  /** One component is taken whole. */
  lemma ComponentTaken(s: seq<byte>, i: nat, end: nat)
    requires i < end <= |s| && IsComponent(s[i..end]) && (end < |s| ==> s[end] == SLASH)
    ensures Taken(s, i) == (RecordName(s[i..end]), if end < |s| then end + 1 else end)
  {
    hide FatName, ComponentEnd, DotName;
    var c := s[i..end];
    assert forall j | i <= j < end :: s[j] == c[j - i];
    if Clean(c) { CleanEnds(s, i, end); }
    assert s[i] == c[0];
  }

  lemma PathSplits(s: seq<byte>, i: nat, cs: seq<seq<byte>>)
    requires i <= |s| && cs != [] && s[i..] == Path(cs)
    ensures var end := i + |cs[0]|;
      && end <= |s| && s[i..end] == cs[0]
      && if |cs| == 1 then end == |s| else end < |s| && s[end] == SLASH && s[end + 1..] == Path(cs[1..])
  {
    var p, end := s[i..], i + |cs[0]|;
    assert s[i..end] == p[..|cs[0]|];
    if |cs| > 1 {
      assert s[end] == p[|cs[0]|] && s[end + 1..] == p[|cs[0]| + 1..];
    }
  }

  /** One step along a path: its first component is taken, and the others are what is left. */
  lemma FirstOfPath(s: seq<byte>, i: nat, cs: seq<seq<byte>>, name: Name, count: nat) returns (next: nat)
    requires i <= |s| && cs != [] && s[i..] == Path(cs) && IsComponent(cs[0])
    ensures next <= |s| && LastTaken(s, i, name, count) == LastTaken(s, next, RecordName(cs[0]), count + 1)
    ensures if |cs| == 1 then next == |s| else s[next..] == Path(cs[1..])
  {
    hide Taken, RecordName, IsComponent, Path;
    PathSplits(s, i, cs);
    NotEmpty(cs[0]);
    var end := i + |cs[0]|;
    ComponentTaken(s, i, end);
    next := if |cs| == 1 then end else end + 1;
  }

  /** Whatever leads to it is stripped off: components name the last one. */
  lemma {:induction false} LastOfPath(s: seq<byte>, i: nat, cs: seq<seq<byte>>, name: Name, count: nat)
    requires i <= |s| && cs != [] && s[i..] == Path(cs)
    requires forall k | 0 <= k < |cs| :: IsComponent(cs[k])
    ensures LastTaken(s, i, name, count) == (RecordName(cs[|cs| - 1]), count + |cs|)
    decreases |cs|
  {
    hide RecordName, IsComponent, LastTaken;
    var next := FirstOfPath(s, i, cs, name, count);
    if |cs| == 1 {
      EndTaken(s, RecordName(cs[0]), count + 1);
    } else {
      LastOfPath(s, next, cs[1..], RecordName(cs[0]), count + 1);
    }
  }

  lemma NotEmpty(c: seq<byte>)
    requires IsComponent(c)
    ensures c != [] && c[0] != SLASH
  {}

  /** With or without a slash in front, a path of components is reduced to the record name of its last one. */
  lemma PathNamesItsLast(cs: seq<seq<byte>>, rooted: bool, name: Name)
    requires cs != [] && forall k | 0 <= k < |cs| :: IsComponent(cs[k])
    ensures var s := if rooted then [SLASH] + Path(cs) else Path(cs);
      LastTaken(s, PathStart(s), name, 0) == (RecordName(cs[|cs| - 1]), |cs|)
  {
    var s := if rooted then [SLASH] + Path(cs) else Path(cs);
    assert IsComponent(cs[0]);
    NotEmpty(cs[0]);
    assert Path(cs)[0] == cs[0][0];
    assert s[PathStart(s)..] == Path(cs);
    LastOfPath(s, PathStart(s), cs, name, 0);
  }

  lemma EndTaken(s: seq<byte>, name: Name, count: nat)
    ensures LastTaken(s, |s|, name, count) == (name, count)
  {}

  /** Capitals, digits, space, dash, underscore and tilde. */
  predicate IsNameChar(c: byte) {
    0x41 <= c <= 0x5A || 0x30 <= c <= 0x39 || c == SPACE || c == 0x2D || c == 0x5F || c == 0x7E
  }

  predicate IsLower(c: byte) { 0x61 <= c <= 0x7A }

  function Upper(c: byte): byte { if IsLower(c) then c - 32 else c }

  /** What is allowed stays, a small letter becomes its capital, and everything else an X. */
  lemma ValidatedIsAllowed(c: byte)
    ensures IsNameChar(ValidateChar(c))
    ensures ValidateChar(c) == if IsNameChar(c) || IsLower(c) then Upper(c) else 0x58
  {}

  /** Names are made of allowed characters only. */
  lemma NamesAreAllowed(component: seq<byte>, i: nat)
    requires i < 11
    ensures IsNameChar(FatName(component)[i])
  {}

  /** The part before the first dot fills the first eight places, the part behind it the other three; each is cut or filled up. */
  lemma EightAndThree(base: seq<byte>, ext: seq<byte>)
    requires DOT !in base
    ensures FatName(base + [DOT] + ext) == Field(base, 8) + Field(ext, 3)
    ensures FatName(base) == Field(base, 8) + Field([], 3)
  {
    var c := base + [DOT] + ext;
    assert c[|base|] == DOT;
    assert forall i | 0 <= i < |base| :: c[i] == base[i] && base[i] in base;
    assert FirstDot(c) == |base|;
    assert Base(c) == base && Extension(c) == ext;
    assert FirstDot(base) == |base|;
    assert Base(base) == base && Extension(base) == [];
  }

  /** A component of at most eight and three allowed characters without spaces. */
  predicate IsShort(part: seq<byte>, n: nat) {
    |part| <= n && forall i | 0 <= i < |part| :: IsNameChar(part[i]) && part[i] != SPACE
  }

  /** Short names are kept as they are: different ones are different records. */
  lemma ShortNamesDiffer(base: seq<byte>, ext: seq<byte>, base': seq<byte>, ext': seq<byte>)
    requires IsShort(base, 8) && IsShort(base', 8) && IsShort(ext, 3) && IsShort(ext', 3)
    requires FatName(base + [DOT] + ext) == FatName(base' + [DOT] + ext')
    ensures base == base' && ext == ext'
  {
    EightAndThree(base, ext);
    EightAndThree(base', ext');
    var x, y := FatName(base + [DOT] + ext), FatName(base' + [DOT] + ext');
    assert Field(base, 8) == x[..8] == y[..8] == Field(base', 8);
    assert Field(ext, 3) == x[8..] == y[8..] == Field(ext', 3);
    ShortFieldsDiffer(base, base', 8);
    ShortFieldsDiffer(ext, ext', 3);
  }

  lemma ShortFieldsDiffer(a: seq<byte>, b: seq<byte>, n: nat)
    requires IsShort(a, n) && IsShort(b, n) && Field(a, n) == Field(b, n)
    ensures a == b
  {
    assert forall i | 0 <= i < n :: Field(a, n)[i] == if i < |a| then a[i] else SPACE;
    assert forall i | 0 <= i < n :: Field(b, n)[i] == if i < |b| then b[i] else SPACE;
    var k := Min(|a|, |b|);
    assert k < n ==> Field(a, n)[k] == Field(b, n)[k];
    assert forall i | 0 <= i < |a| :: a[i] == Field(a, n)[i] == Field(b, n)[i] == b[i];
  }

  /** The two dot names are different, and no listing shows their records. */
  lemma DotNamesAreHidden(r: Record)
    ensures NameOf(r) == DotName(1) || NameOf(r) == DotName(2) ==> !IsListed(r)
    ensures DotName(1) != DotName(2)
  {
    assert NameOf(r)[0] == r[0];
    assert DotName(1)[1] != DotName(2)[1];
  }

  /** Two components that differ in case only name the same record. */
  lemma CaseDoesNotMatter(a: seq<byte>, b: seq<byte>)
    requires |a| == |b| && forall i | 0 <= i < |a| :: Upper(a[i]) == Upper(b[i])
    ensures FatName(a) == FatName(b)
  {
    var d, e := FirstDot(a), FirstDot(b);
    assert d == |a| || Upper(a[d]) == DOT;
    assert e == |b| || Upper(b[e]) == DOT;
    assert d == e;
    SameField(Base(a), Base(b), 8);
    SameField(Extension(a), Extension(b), 3);
  }

  lemma SameField(a: seq<byte>, b: seq<byte>, n: nat)
    requires |a| == |b| && forall i | 0 <= i < |a| :: Upper(a[i]) == Upper(b[i])
    ensures Field(a, n) == Field(b, n)
  {}

  /** A name made from a component never looks like a deleted, unused or dot record. */
  lemma NamesAreListable(component: seq<byte>)
    requires component != [] && !EndsComponent(component[0]) && component[0] != DOT
    ensures var first := FatName(component)[0]; first != 0 && first != 0xE5 && first != DOT && first != SPACE
  {
    var d := FirstDot(component);
    assert d == |component| || component[d] == DOT;
    assert Base(component)[0] == component[0];
  }
}
