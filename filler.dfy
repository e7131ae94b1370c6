/** The helpers of the directory-filling script (scripts/filler.py): the
    slash-separated Path codec, the walk from a name_map row up to its root,
    and the loop that splits a file into size-bounded pieces, each handed to
    `pngrecon encode`. */
module Filler {
  import opened Wrappers
  import opened Bytes
  import opened Seqs

  const SEP: char := '/'

  /** str.split('/'): the text between consecutive separators, always at
      least one (possibly empty) piece. */
  function SplitOn(s: string): (r: seq<string>)
    ensures |r| >= 1
    ensures forall i :: 0 <= i < |r| ==> SEP !in r[i]
  {
    if s == [] then [[]]
    else if s[0] == SEP then [[]] + SplitOn(s[1..])
    else
      var t := SplitOn(s[1..]);
      [[s[0]] + t[0]] + t[1..]
  }

  /** '/'.join(ps) */
  function Join(ps: seq<string>): string
  {
    if |ps| == 0 then []
    else if |ps| == 1 then ps[0]
    else ps[0] + [SEP] + Join(ps[1..])
  }

  predicate NoSeparator(ps: seq<string>)
  {
    forall i :: 0 <= i < |ps| ==> SEP !in ps[i]
  }

  /** Joining the pieces of a split gives the string back. */
  lemma {:induction false} JoinSplit(s: string)
    ensures Join(SplitOn(s)) == s
  {
    if s != [] {
      var t := SplitOn(s[1..]);
      JoinSplit(s[1..]);
      if s[0] == SEP {
        assert ([[]] + t)[1..] == t;
      } else if |t| > 1 {
        assert ([[s[0]] + t[0]] + t[1..])[1..] == t[1..];
      }
    }
  }

  /** Splitting text that starts with a separator-free prefix a: the prefix
      is glued to the first piece of the rest. */
  lemma {:induction false} SplitPrefix(a: string, rest: string)
    requires SEP !in a
    ensures SplitOn(a + rest) == [a + SplitOn(rest)[0]] + SplitOn(rest)[1..]
  {
    if a != [] {
      assert (a + rest)[1..] == a[1..] + rest;
      SplitPrefix(a[1..], rest);
      assert [a[0]] + (a[1..] + SplitOn(rest)[0]) == a + SplitOn(rest)[0];
    } else {
      var t := SplitOn(rest);
      assert a + rest == rest;
      assert a + t[0] == t[0];
      assert t == [t[0]] + t[1..];
    }
  }

  /** Splitting what was joined from separator-free pieces gives the pieces
      back. */
  lemma {:induction false} SplitJoin(ps: seq<string>)
    requires |ps| >= 1 && NoSeparator(ps)
    ensures SplitOn(Join(ps)) == ps
  {
    if |ps| == 1 {
      SplitPrefix(ps[0], []);
      assert ps[0] + [] == ps[0];
    } else {
      var rest := Join(ps[1..]);
      SplitJoin(ps[1..]);
      assert ps[0] + [SEP] + rest == ps[0] + ([SEP] + rest);
      SplitPrefix(ps[0], [SEP] + rest);
      assert ([SEP] + rest)[1..] == rest;
      assert ps[0] + [] == ps[0];
      assert ps == [ps[0]] + ps[1..];
    }
  }

  /** PathComponent: one name between separators. */
  datatype PathComponent = PathComponent(s: string)

  function NameOf(c: PathComponent): string
  {
    c.s
  }

  function ComponentOf(s: string): PathComponent
  {
    PathComponent(s)
  }

  /** The state of a Path: its components and whether it is absolute. */
  datatype PathValue = PathValue(items: seq<PathComponent>, absolute: bool)

  /** Path.__str__: the components joined with '/', with a leading '/'
      exactly when the path is absolute. */
  function Render(p: PathValue): string
  {
    (if p.absolute then [SEP] else []) + Join(MapSeq(NameOf, p.items))
  }

  /** Path.from_str: split at '/'; a string starting with '/' is absolute
      and loses the empty piece before that separator. */
  function Parse(s: string): PathValue
  {
    var pcs := MapSeq(ComponentOf, SplitOn(s));
    if |s| > 0 && s[0] == SEP then PathValue(pcs[1..], true) else PathValue(pcs, false)
  }

  /** A path is absolute exactly when its text starts with '/', and then
      the piece dropped is the empty one before that '/'. */
  lemma ParseAbsolute(s: string)
    ensures Parse(s).absolute <==> |s| > 0 && s[0] == SEP
    ensures Parse(s).absolute ==> SplitOn(s)[0] == [] && Parse(s).items == MapSeq(ComponentOf, SplitOn(s[1..]))
    ensures !Parse(s).absolute ==> Parse(s).items == MapSeq(ComponentOf, SplitOn(s))
  {
    if |s| > 0 && s[0] == SEP {
      var t := SplitOn(s[1..]);
      assert SplitOn(s) == [[]] + t;
      assert MapSeq(ComponentOf, SplitOn(s))[1..] == MapSeq(ComponentOf, t);
    }
  }

  lemma NamesOfComponents(ss: seq<string>)
    ensures MapSeq(NameOf, MapSeq(ComponentOf, ss)) == ss
  {
  }

  /** str(Path.from_str(s)) == s for every string s. */
  lemma RenderParse(s: string)
    ensures Render(Parse(s)) == s
  {
    ParseAbsolute(s);
    if |s| > 0 && s[0] == SEP {
      NamesOfComponents(SplitOn(s[1..]));
      JoinSplit(s[1..]);
      assert [SEP] + s[1..] == s;
    } else {
      NamesOfComponents(SplitOn(s));
      JoinSplit(s);
      assert [] + s == s;
    }
  }

  /** A well-formed path (at least one component, each non-empty and free
      of '/') survives being written out and parsed back. */
  lemma ParseRender(p: PathValue)
    requires |p.items| >= 1
    requires forall i :: 0 <= i < |p.items| ==> p.items[i].s != [] && SEP !in p.items[i].s
    ensures Parse(Render(p)) == p
  {
    var names := MapSeq(NameOf, p.items);
    var j := Join(names);
    SplitJoin(names);
    ComponentsOfNames(p.items);
    if p.absolute {
      assert ([SEP] + j)[1..] == j;
      ParseAbsolute([SEP] + j);
    } else {
      JoinHead(names);
      assert [] + j == j;
      ParseAbsolute(j);
    }
  }

  lemma ComponentsOfNames(items: seq<PathComponent>)
    ensures MapSeq(ComponentOf, MapSeq(NameOf, items)) == items
  {
  }

  lemma JoinHead(ps: seq<string>)
    requires |ps| >= 1 && |ps[0]| > 0
    ensures |Join(ps)| > 0 && Join(ps)[0] == ps[0][0]
  {
  }

  /** Appending a component to a non-empty path adds '/' and its name to
      the text. */
  lemma RenderAppend(p: PathValue, c: PathComponent)
    requires |p.items| >= 1
    ensures Render(PathValue(p.items + [c], p.absolute)) == Render(p) + [SEP] + c.s
  {
    var names := MapSeq(NameOf, p.items);
    var lead: string := if p.absolute then [SEP] else [];
    MapConcat(NameOf, p.items, [c]);
    assert MapSeq(NameOf, [c]) == [c.s];
    JoinAppend(names, c.s);
    assert lead + Join(names) + [SEP] + c.s == lead + (Join(names) + [SEP] + c.s);
  }

  lemma {:induction false} JoinAppend(ps: seq<string>, x: string)
    requires |ps| >= 1
    ensures Join(ps + [x]) == Join(ps) + [SEP] + x
  {
    if |ps| > 1 {
      assert (ps + [x])[1..] == ps[1..] + [x];
      JoinAppend(ps[1..], x);
    } else {
      assert (ps + [x])[1..] == [x];
    }
  }

  /** Path: a list of components and an absolute flag, both updated in place. */
  class Path {
    var items: seq<PathComponent>
    var absolute: bool

    constructor(items: seq<PathComponent>, absolute: bool)
      ensures this.items == items && this.absolute == absolute
    {
      this.items := items;
      this.absolute := absolute;
    }

    function Value(): PathValue
      reads this
    {
      PathValue(items, absolute)
    }

    /** __str__ */
    function ToString(): string
      reads this
    {
      Render(Value())
    }

    /** __getitem__: Python list indexing, negative indices counting from
        the end; an index out of range is an IndexError. */
    function Get(i: int): (r: Option<PathComponent>)
      reads this
      ensures r.Some? <==> -|items| <= i < |items|
      ensures r.Some? ==> r.value in items
    {
      if 0 <= i < |items| then Some(items[i])
      else if -|items| <= i < 0 then Some(items[|items| + i])
      else None
    }

    /** append(PathComponent): one more item at the end. */
    method AppendComponent(c: PathComponent)
      modifies this
      ensures items == old(items) + [c] && absolute == old(absolute)
    {
      items := items + [c];
    }

    /** append(Path): extend with the argument's items (the argument may be
        this very path). */
    method AppendPath(p: Path)
      modifies this
      ensures items == old(items) + old(p.items) && absolute == old(absolute)
    {
      items := items + p.items;
    }

    /** deepcopy(path) */
    method Copy() returns (c: Path)
      ensures fresh(c) && c.Value() == Value()
    {
      c := new Path(items, absolute);
    }

    /** Path.from_str */
    static method FromStr(s: string) returns (p: Path)
      ensures fresh(p) && p.Value() == Parse(s)
    {
      var parts := SplitOn(s);
      var pcs := MapSeq(ComponentOf, parts);
      var absolute := |s| > 0 && s[0] == SEP;
      if absolute {
        ParseAbsolute(s);
        assert pcs[0].s == [];
        pcs := pcs[1..];
      }
      p := new Path(pcs, absolute);
    }
  }

  /** Negative indices name the same components as their non-negative
      counterparts. */
  lemma GetFromEnd(p: Path, i: int)
    requires 0 <= i < |p.items|
    ensures p.Get(i - |p.items|) == p.Get(i) == Some(p.items[i])
  {
  }

  /** A name_map row: the name, and the rowid of the parent row (NULL for a
      root). */
  datatype Row = Row(name: string, parent: Option<int>)

  /** Why get_path raises: the row is absent (fetchone() returns None), or
      the chain of parents is deeper than the interpreter's recursion limit. */
  datatype PathError = MissingRow(rowid: int) | TooDeep

  /** `if row['parent']`: NULL and 0 are both false. */
  predicate HasParent(r: Row)
  {
    r.parent.Some? && r.parent.value != 0
  }

  /** The chain of parent links from rowid to its ancestor without a
      parent, listed from that ancestor down: ids[0] is a root, each later
      row's parent is the one before it, and the last id is rowid. */
  predicate IsLineage(db: map<int, Row>, rowid: int, ids: seq<int>)
  {
    && |ids| >= 1
    && ids[|ids| - 1] == rowid
    && (forall i :: 0 <= i < |ids| ==> ids[i] in db)
    && !HasParent(db[ids[0]])
    && (forall i :: 0 < i < |ids| ==> HasParent(db[ids[i]]) && db[ids[i]].parent.value == ids[i - 1])
  }

  /** The rowids get_path collects, from the root down to rowid; fuel is the
      number of recursive calls the interpreter still allows. */
  function Lineage(db: map<int, Row>, rowid: int, fuel: nat): (r: Result<seq<int>, PathError>)
    decreases fuel
    ensures r.Ok? ==> IsLineage(db, rowid, r.value) && |r.value| <= fuel + 1
  {
    if rowid !in db then Err(MissingRow(rowid))
    else if !HasParent(db[rowid]) then Ok([rowid])
    else if fuel == 0 then Err(TooDeep)
    else
      match Lineage(db, db[rowid].parent.value, fuel - 1)
      case Err(e) => Err(e)
      case Ok(ids) => Ok(ids + [rowid])
  }

  /** The lineage is the only one: any chain of parent links that fits in
      the recursion budget is what get_path finds. */
  lemma {:induction false} LineageUnique(db: map<int, Row>, rowid: int, fuel: nat, ids: seq<int>)
    requires IsLineage(db, rowid, ids) && |ids| <= fuel + 1
    ensures Lineage(db, rowid, fuel) == Ok(ids)
    decreases fuel
  {
    if |ids| > 1 {
      var front := ids[..|ids| - 1];
      assert IsLineage(db, ids[|ids| - 2], front) by {
        assert forall i :: 0 <= i < |front| ==> front[i] == ids[i];
      }
      LineageUnique(db, ids[|ids| - 2], fuel - 1, front);
      assert front + [rowid] == ids;
    } else {
      assert ids == [rowid];
    }
  }

  /** A row that is its own parent makes get_path recurse until the
      interpreter gives up. */
  lemma {:induction false} SelfParentTooDeep(db: map<int, Row>, rowid: int, fuel: nat)
    requires rowid in db && db[rowid].parent == Some(rowid) && rowid != 0
    ensures Lineage(db, rowid, fuel) == Err(TooDeep)
    decreases fuel
  {
    if fuel > 0 {
      SelfParentTooDeep(db, rowid, fuel - 1);
    }
  }

  /** The components named by the rows ids, in order. */
  function NamesAlong(db: map<int, Row>, ids: seq<int>): (r: seq<PathComponent>)
    requires forall i :: 0 <= i < |ids| ==> ids[i] in db
    ensures |r| == |ids| && forall i :: 0 <= i < |ids| ==> r[i] == PathComponent(db[ids[i]].name)
  {
    if ids == [] then [] else NamesAlong(db, ids[..|ids| - 1]) + [PathComponent(db[ids[|ids| - 1]].name)]
  }

  /** What get_path returns: the root's path, the path below it, and the
      rowids walked. */
  datatype Located = Located(root: Path, subpath: Path, ids: seq<int>)

  /** get_path: climb the parent links recursively; the parentless row's
      name is parsed as the root, and each row below it appends its name to
      the sub-path and its rowid to the list. */
  method GetPath(db: map<int, Row>, rowid: int, fuel: nat) returns (r: Result<Located, PathError>)
    decreases fuel
    ensures r.Err? <==> Lineage(db, rowid, fuel).Err?
    ensures r.Err? ==> r.error == Lineage(db, rowid, fuel).error
    ensures r.Ok? ==>
      var ids := Lineage(db, rowid, fuel).value;
      && r.value.ids == ids
      && fresh(r.value.root) && fresh(r.value.subpath) && r.value.root != r.value.subpath
      && r.value.root.Value() == Parse(db[ids[0]].name)
      && r.value.subpath.Value() == PathValue(NamesAlong(db, ids[1..]), false)
  {
    if rowid !in db {
      return Err(MissingRow(rowid));
    }
    var row := db[rowid];
    if HasParent(row) {
      if fuel == 0 {
        return Err(TooDeep);
      }
      var above := GetPath(db, row.parent.value, fuel - 1);
      if above.Err? {
        return Err(above.error);
      }
      var loc := above.value;
      var ids := loc.ids;
      loc.subpath.AppendComponent(PathComponent(row.name));
      assert (ids + [rowid])[1..] == ids[1..] + [rowid];
      assert (ids[1..] + [rowid])[..|ids| - 1] == ids[1..];
      return Ok(Located(loc.root, loc.subpath, ids + [rowid]));
    }
    var root := Path.FromStr(row.name);
    var subpath := new Path([], false);
    return Ok(Located(root, subpath, [rowid]));
  }

  /** The decimal digits of n, most significant first. */
  function Digits(n: nat): (r: string)
    ensures |r| >= 1 && forall i :: 0 <= i < |r| ==> '0' <= r[i] <= '9'
    decreases n
  {
    if n < 10 then [DigitChar(n)] else Digits(n / 10) + [DigitChar(n % 10)]
  }

  function DigitChar(d: nat): char
    requires d < 10
  {
    ('0' as int + d) as char
  }

  /** Left-pad with '0' to at least w characters. */
  function ZeroPad(s: string, w: nat): (r: string)
    ensures |r| >= w && |r| >= |s|
    decreases w - |s|
  {
    if |s| >= w then s else ZeroPad(['0'] + s, w)
  }

  /** The number a string of decimal digits spells. */
  function ReadDecimal(s: string): nat
    requires forall i :: 0 <= i < |s| ==> '0' <= s[i] <= '9'
  {
    if s == [] then 0 else ReadDecimal(s[..|s| - 1]) * 10 + (s[|s| - 1] as int - '0' as int)
  }

  const PNG_SUFFIX: string := ".png"

  /** f'{n:03}.png': the piece number, zero-padded to three digits. */
  function PieceName(n: nat): string
  {
    ZeroPad(Digits(n), 3) + PNG_SUFFIX
  }

  lemma {:induction false} ReadDigits(n: nat)
    ensures ReadDecimal(Digits(n)) == n
    decreases n
  {
    if n >= 10 {
      ReadDigits(n / 10);
      assert (Digits(n / 10) + [DigitChar(n % 10)])[..|Digits(n)| - 1] == Digits(n / 10);
    }
  }

  lemma {:induction false} ReadLeadingZero(s: string)
    requires forall i :: 0 <= i < |s| ==> '0' <= s[i] <= '9'
    ensures ReadDecimal(['0'] + s) == ReadDecimal(s)
  {
    if s != [] {
      var t := ['0'] + s;
      assert t[..|t| - 1] == ['0'] + s[..|s| - 1];
      ReadLeadingZero(s[..|s| - 1]);
    } else {
      assert (['0'] + s)[..0] == [];
    }
  }

  lemma {:induction false} ReadPadded(s: string, w: nat)
    requires forall i :: 0 <= i < |s| ==> '0' <= s[i] <= '9'
    ensures forall i :: 0 <= i < |ZeroPad(s, w)| ==> '0' <= ZeroPad(s, w)[i] <= '9'
    ensures ReadDecimal(ZeroPad(s, w)) == ReadDecimal(s)
    decreases w - |s|
  {
    if |s| < w {
      var t := ['0'] + s;
      assert forall i :: 0 < i < |t| ==> t[i] == s[i - 1];
      ReadLeadingZero(s);
      ReadPadded(t, w);
    }
  }

  /** The number in a piece's name is the piece number: the names are all
      different, and the first is 001.png. */
  lemma PieceNameNumber(n: nat)
    ensures var name := PieceName(n);
      && |name| >= 7 && name[|name| - 4..] == PNG_SUFFIX
      && (forall i :: 0 <= i < |name| - 4 ==> '0' <= name[i] <= '9')
      && ReadDecimal(name[..|name| - 4]) == n
  {
    var digits := ZeroPad(Digits(n), 3);
    assert PieceName(n)[..|PieceName(n)| - 4] == digits;
    ReadDigits(n);
    ReadPadded(Digits(n), 3);
  }

  lemma PieceNamesDiffer(a: nat, b: nat)
    requires a != b
    ensures PieceName(a) != PieceName(b)
  {
    PieceNameNumber(a);
    PieceNameNumber(b);
  }

  lemma FirstPieceName()
    ensures PieceName(1) == "001.png"
  {
    assert Digits(1) == "1";
    assert ZeroPad("1", 3) == "001";
  }

  /** buf_size in split_encode: each read asks for at most 4 MiB. */
  const BUF_SIZE: nat := 4 * 1024 * 1024

  /** The pieces split_encode hands to `pngrecon encode`, from the unread
      rest of the file with piece number n next. A piece takes max_file_size
      bytes while that many remain; when fewer remain, the last read of the
      piece comes back empty, and the piece is skipped unless it is the
      first one. */
  function AsWrittenPieces(rest: seq<byte>, m: nat, n: nat): seq<seq<byte>>
    requires m > 0
    decreases |rest|
  {
    if |rest| < m then (if n > 1 then [] else [rest])
    else [rest[..m]] + AsWrittenPieces(rest[m..], m, n + 1)
  }

  /** One invocation of `pngrecon encode -o <path>` with the piece on stdin. */
  datatype Call = Call(outPath: string, input: seq<byte>)

  /** What split_encode returns, and the encodes it ran, in order. */
  datatype SplitRun = SplitRun(ok: bool, calls: seq<Call>)

  /** out_dname with the piece name appended, as a string. */
  function PiecePath(outDir: PathValue, n: nat): string
  {
    Render(PathValue(outDir.items + [PathComponent(PieceName(n))], outDir.absolute))
  }

  /** The path each piece number is encoded to under out_dname. */
  function PiecePaths(outDir: PathValue): nat -> string
  {
    (n: nat) => PiecePath(outDir, n)
  }

  /** Encode the pieces one after the other, numbering them from n, and
      stop at the first encode that fails: the calls made are the pieces up
      to and including that one, and the run succeeds exactly when every
      piece was encoded. */
  function RunPieces(pieces: seq<seq<byte>>, n: nat, name: nat -> string, run: (string, seq<byte>) -> bool): SplitRun
  {
    if pieces == [] then SplitRun(true, [])
    else
      var call := Call(name(n), pieces[0]);
      if !Succeeds(run, call) then SplitRun(false, [call])
      else
        var more := RunPieces(pieces[1..], n + 1, name, run);
        SplitRun(more.ok, [call] + more.calls)
  }

  /** The encoder accepts the call: `pngrecon encode` exits with status 0. */
  predicate Succeeds(run: (string, seq<byte>) -> bool, c: Call)
  {
    run(c.outPath, c.input)
  }

  /** Every piece with the path it is encoded to, numbering from n. */
  function PieceCalls(pieces: seq<seq<byte>>, n: nat, name: nat -> string): (r: seq<Call>)
    ensures |r| == |pieces|
    ensures forall i :: 0 <= i < |pieces| ==> r[i] == Call(name(n + i), pieces[i])
  {
    if pieces == [] then [] else [Call(name(n), pieces[0])] + PieceCalls(pieces[1..], n + 1, name)
  }

  /** The calls made are the first calls of the piece list, in order. */
  lemma {:induction false} RunPiecesPrefix(pieces: seq<seq<byte>>, n: nat, name: nat -> string, run: (string, seq<byte>) -> bool)
    ensures var r := RunPieces(pieces, n, name, run);
      |r.calls| <= |pieces| && r.calls == PieceCalls(pieces, n, name)[..|r.calls|]
  {
    if pieces != [] {
      var all := PieceCalls(pieces, n, name);
      var call := all[0];
      if Succeeds(run, call) {
        var more := RunPieces(pieces[1..], n + 1, name, run);
        RunPiecesPrefix(pieces[1..], n + 1, name, run);
        assert all == [call] + PieceCalls(pieces[1..], n + 1, name);
        assert all[..1 + |more.calls|] == [call] + PieceCalls(pieces[1..], n + 1, name)[..|more.calls|];
      } else {
        assert all[..1] == [call];
      }
    }
  }

  /** Every call's encode succeeds. */
  predicate AllSucceed(run: (string, seq<byte>) -> bool, calls: seq<Call>)
  {
    forall i :: 0 <= i < |calls| ==> Succeeds(run, calls[i])
  }

  /** The run succeeds exactly when every piece's encode succeeds, and then
      every piece was encoded. */
  lemma {:induction false} RunPiecesOk(pieces: seq<seq<byte>>, n: nat, name: nat -> string, run: (string, seq<byte>) -> bool)
    ensures RunPieces(pieces, n, name, run).ok <==> AllSucceed(run, PieceCalls(pieces, n, name))
    ensures RunPieces(pieces, n, name, run).ok ==> RunPieces(pieces, n, name, run).calls == PieceCalls(pieces, n, name)
  {
    if pieces != [] {
      var all := PieceCalls(pieces, n, name);
      var rest := PieceCalls(pieces[1..], n + 1, name);
      var call := Call(name(n), pieces[0]);
      assert all == [call] + rest;
      if Succeeds(run, call) {
        RunPiecesOk(pieces[1..], n + 1, name, run);
        AllSucceedCons(run, call, rest);
      }
    }
  }

  lemma AllSucceedCons(run: (string, seq<byte>) -> bool, c: Call, cs: seq<Call>)
    ensures AllSucceed(run, [c] + cs) <==> Succeeds(run, c) && AllSucceed(run, cs)
  {
    var all := [c] + cs;
    assert forall i :: 0 < i < |all| ==> all[i] == cs[i - 1];
    if Succeeds(run, c) && AllSucceed(run, cs) {
      forall i | 0 <= i < |all| ensures Succeeds(run, all[i]) {
        if i > 0 {
          assert all[i] == cs[i - 1];
        }
      }
    }
    if AllSucceed(run, all) {
      assert all[0] == c;
      forall j | 0 <= j < |cs| ensures Succeeds(run, cs[j]) {
        assert all[j + 1] == cs[j];
      }
    }
  }

  /** A failed run stops at its last call, the first encode that failed. */
  lemma {:induction false} RunPiecesStops(pieces: seq<seq<byte>>, n: nat, name: nat -> string, run: (string, seq<byte>) -> bool)
    ensures var r := RunPieces(pieces, n, name, run);
      !r.ok ==>
        && |r.calls| >= 1
        && !Succeeds(run, r.calls[|r.calls| - 1])
        && forall i :: 0 <= i < |r.calls| - 1 ==> Succeeds(run, r.calls[i])
  {
    if pieces != [] {
      var call := Call(name(n), pieces[0]);
      if Succeeds(run, call) {
        var more := RunPieces(pieces[1..], n + 1, name, run);
        RunPiecesStops(pieces[1..], n + 1, name, run);
        var calls := [call] + more.calls;
        assert forall i :: 0 < i < |calls| ==> calls[i] == more.calls[i - 1];
      }
    }
  }

  /** The calls made so far, then those of a run that follows them. */
  function After(calls: seq<Call>, r: SplitRun): SplitRun
  {
    SplitRun(r.ok, calls + r.calls)
  }

  datatype SplitError = FileNotFound(path: string)

  /** split_encode: open root/in_name, then fill a temporary file with
      reads of at most min(buf_size, budget) bytes until the budget is spent
      or a read comes back empty, and hand each filled piece to the encoder
      (`run`) as out_dname/NNN.png. Opening a missing file raises, which is
      the error result here. */
  method SplitEncode(rootIn: Path, inName: Path, outDir: Path, files: map<string, seq<byte>>,
                     maxFileSize: int, run: (string, seq<byte>) -> bool)
    returns (r: Result<SplitRun, SplitError>)
    requires maxFileSize > 0
    ensures var inPath := Render(PathValue(rootIn.items + inName.items, rootIn.absolute));
      && (inPath !in files ==> r == Err(FileNotFound(inPath)))
      && (inPath in files ==>
            r == Ok(RunPieces(AsWrittenPieces(files[inPath], maxFileSize, 1), 1, PiecePaths(outDir.Value()), run)))
  {
    var inF := rootIn.Copy();
    inF.AppendPath(inName);
    var inPath := inF.ToString();
    if inPath !in files {
      return Err(FileNotFound(inPath));
    }
    var outcome := EncodePieces(files[inPath], outDir, maxFileSize, run);
    return Ok(outcome);
  }

  /** The loop of split_encode over the opened input: cut it into pieces
      and encode them one after the other as out_dname/001.png,
      out_dname/002.png, ..., stopping at the first encode that fails. */
  method EncodePieces(input: seq<byte>, outDir: Path, maxFileSize: int, run: (string, seq<byte>) -> bool)
    returns (r: SplitRun)
    requires maxFileSize > 0
    ensures r == RunPieces(AsWrittenPieces(input, maxFileSize, 1), 1, PiecePaths(outDir.Value()), run)
  {
    ghost var whole := RunPieces(AsWrittenPieces(input, maxFileSize, 1), 1, PiecePaths(outDir.Value()), run);
    var pos := 0;
    var eof := false;
    var n := 1;
    var calls: seq<Call> := [];
    assert input[pos..] == input;
    while !eof
      invariant 0 <= pos <= |input| && n >= 1
      invariant !eof ==> whole == After(calls, RunPieces(AsWrittenPieces(input[pos..], maxFileSize, n), n, PiecePaths(outDir.Value()), run))
      invariant eof ==> whole == SplitRun(true, calls)
      decreases |input| - pos, if eof then 0 else 1
    {
      var start := pos;
      var tmp, b;
      tmp, pos, eof, b := ReadPiece(input, pos, maxFileSize);
      PieceRead(input, start, pos, maxFileSize, n, eof);
      if !(|b| == 0 && n > 1) {
        var outF := outDir.Copy();
        outF.AppendComponent(PathComponent(PieceName(n)));
        var outPath := outF.ToString();
        assert outPath == PiecePaths(outDir.Value())(n);
        ghost var later := if eof then [] else AsWrittenPieces(input[pos..], maxFileSize, n + 1);
        EmitStep(calls, tmp, later, n, PiecePaths(outDir.Value()), run);
        calls := calls + [Call(outPath, tmp)];
        if !run(outPath, tmp) {
          return SplitRun(false, calls);
        }
        n := n + 1;
      }
    }
    return SplitRun(true, calls);
  }

  /** One piece of split_encode: starting at pos, read at most
      min(buf_size, budget) bytes at a time into the piece until the budget
      of max_file_size bytes is spent or a read comes back empty. The piece
      is the next max_file_size bytes, or all that is left when fewer are
      left, and the reads reached end of file exactly in that case; the last
      read was empty exactly then too. */
  method ReadPiece(input: seq<byte>, pos: nat, maxFileSize: int)
    returns (tmp: seq<byte>, next: nat, eof: bool, b: seq<byte>)
    requires maxFileSize > 0 && pos <= |input|
    ensures eof <==> |input| - pos < maxFileSize
    ensures next == (if eof then |input| else pos + maxFileSize)
    ensures tmp == input[pos..next]
    ensures b == [] <==> eof
  {
    next := pos;
    eof := false;
    tmp := [];
    var budget := maxFileSize;
    b := [];
    while budget > 0 && !eof
      invariant pos <= next <= |input|
      invariant tmp == input[pos..next]
      invariant budget == maxFileSize - (next - pos) && budget >= 0
      invariant eof ==> next == |input| && b == [] && budget > 0
      invariant !eof && budget < maxFileSize ==> b != []
      decreases budget, if eof then 0 else 1
    {
      var want := if BUF_SIZE < budget then BUF_SIZE else budget;
      var end := if next + want < |input| then next + want else |input|;
      b := input[next..end];
      next := end;
      if |b| == 0 {
        eof := true;
        break;
      }
      tmp := tmp + b;
      budget := budget - |b|;
    }
  }

  /** Encoding one piece, then the run of the pieces after it. */
  lemma EmitStep(calls: seq<Call>, p: seq<byte>, ps: seq<seq<byte>>, n: nat, name: nat -> string,
                 run: (string, seq<byte>) -> bool)
    ensures var c := Call(name(n), p);
      && (!Succeeds(run, c) ==> After(calls, RunPieces([p] + ps, n, name, run)) == SplitRun(false, calls + [c]))
      && (Succeeds(run, c) ==>
            After(calls, RunPieces([p] + ps, n, name, run)) == After(calls + [c], RunPieces(ps, n + 1, name, run)))
  {
    assert ([p] + ps)[1..] == ps;
    var c := Call(name(n), p);
    if Succeeds(run, c) {
      var more := RunPieces(ps, n + 1, name, run);
      assert calls + ([c] + more.calls) == calls + [c] + more.calls;
    }
  }

  /** After one piece's reads: the piece ended at end of file exactly when
      fewer than max_file_size bytes were left, and the pieces from its
      start are it, then the pieces from where it stopped. */
  lemma PieceRead(input: seq<byte>, start: nat, pos: nat, m: nat, n: nat, eof: bool)
    requires m > 0 && start <= pos <= |input|
    requires eof ==> pos == |input| && pos - start < m
    requires !eof ==> pos - start == m
    ensures eof ==> AsWrittenPieces(input[start..], m, n) == (if n > 1 then [] else [input[start..pos]])
    ensures !eof ==> AsWrittenPieces(input[start..], m, n) == [input[start..pos]] + AsWrittenPieces(input[pos..], m, n + 1)
  {
    var rest := input[start..];
    if eof {
      assert rest == input[start..pos];
    } else {
      assert rest[..m] == input[start..pos];
      assert rest[m..] == input[pos..];
    }
  }

  /** No piece is longer than m, and every piece but the last is exactly
      that long. */
  predicate PieceSizes(ps: seq<seq<byte>>, m: nat)
  {
    && (forall i :: 0 <= i < |ps| ==> |ps[i]| <= m)
    && (forall i :: 0 <= i < |ps| - 1 ==> |ps[i]| == m)
  }

  lemma PieceSizesCons(p: seq<byte>, ps: seq<seq<byte>>, m: nat)
    requires |p| == m && PieceSizes(ps, m)
    ensures PieceSizes([p] + ps, m)
  {
    var all := [p] + ps;
    assert forall i :: 0 < i < |all| ==> all[i] == ps[i - 1];
  }

  /** Each read asks for at most the budget left, so no piece is longer
      than max_file_size, and every piece but the last is exactly that long. */
  lemma {:induction false} PiecesBounded(rest: seq<byte>, m: nat, n: nat)
    requires m > 0
    ensures PieceSizes(AsWrittenPieces(rest, m, n), m)
    decreases |rest|
  {
    if |rest| >= m {
      PiecesBounded(rest[m..], m, n + 1);
      PieceSizesCons(rest[..m], AsWrittenPieces(rest[m..], m, n + 1), m);
    }
  }

  /** How many encodes split_encode starts when every one succeeds: one per
      whole max_file_size block, and a single piece (possibly empty) when
      the file is shorter than one block. */
  lemma {:induction false} PieceCount(rest: seq<byte>, m: nat, n: nat)
    requires m > 0 && n >= 1
    ensures |AsWrittenPieces(rest, m, n)| == if n == 1 && |rest| < m then 1 else |rest| / m
    decreases |rest|
  {
    if |rest| >= m {
      PieceCount(rest[m..], m, n + 1);
      DivShift(|rest| - m, m);
    }
  }

  lemma DivShift(k: nat, m: nat)
    requires m > 0
    ensures (k + m) / m == k / m + 1
  {
    ModShift(k, m);
    assert k == (k / m) * m + k % m;
    assert k + m == ((k + m) / m) * m + (k + m) % m;
    var d := (k + m) / m - k / m - 1;
    assert d * m == 0;
    if d > 0 {
    } else if d < 0 {
    }
  }

  /** After the first piece, the pieces hold every whole max_file_size block
      of the rest and nothing of a shorter tail. */
  lemma {:induction false} LaterPiecesDropTail(rest: seq<byte>, m: nat, n: nat)
    requires m > 0 && n > 1
    ensures Flatten(AsWrittenPieces(rest, m, n)) == rest[..|rest| - |rest| % m]
    decreases |rest|
  {
    if |rest| < m {
      ModSmall(|rest|, m);
    } else {
      var k := |rest| - m;
      LaterPiecesDropTail(rest[m..], m, n + 1);
      ModShift(k, m);
      FirstPieceThen(rest, m, n, rest[m..][..k - k % m]);
    }
  }

  /** One whole piece, then the pieces after it. */
  lemma FirstPieceThen(rest: seq<byte>, m: nat, n: nat, later: seq<byte>)
    requires 0 < m <= |rest|
    requires Flatten(AsWrittenPieces(rest[m..], m, n + 1)) == later
    ensures Flatten(AsWrittenPieces(rest, m, n)) == rest[..m] + later
  {
    assert AsWrittenPieces(rest, m, n)[1..] == AsWrittenPieces(rest[m..], m, n + 1);
  }

  lemma ModShift(k: nat, m: nat)
    requires m > 0
    ensures (k + m) % m == k % m
  {
    var q, r := k / m, k % m;
    var q2, r2 := (k + m) / m, (k + m) % m;
    assert k == q * m + r;
    assert k + m == q2 * m + r2;
    var d := q2 - q - 1;
    assert d * m == r - r2;
    // d is 0: split on its sign
    if d > 0 {
    } else if d < 0 {
    }
  }

  /** A remainder by a larger divisor is the number itself. */
  lemma ModSmall(k: nat, m: nat)
    requires k < m
    ensures k % m == k
  {
  }

  /** The pieces put back together give the whole file exactly when the
      file is shorter than max_file_size or a whole number of pieces long:
      otherwise its last |input| % max_file_size bytes are never encoded. */
  lemma AsWrittenRebuildsIff(input: seq<byte>, m: nat)
    requires m > 0
    ensures Flatten(AsWrittenPieces(input, m, 1)) == input <==> |input| < m || |input| % m == 0
  {
    if |input| >= m {
      AsWrittenKeepsWholeBlocks(input, m);
      if |input| % m != 0 {
        assert |input[..|input| - |input| % m]| < |input|;
      }
    } else {
      assert Flatten([input]) == input + Flatten([]);
    }
  }

  lemma AsWrittenKeepsWholeBlocks(input: seq<byte>, m: nat)
    requires 0 < m <= |input|
    ensures Flatten(AsWrittenPieces(input, m, 1)) == input[..|input| - |input| % m]
  {
    var k := |input| - m;
    LaterPiecesDropTail(input[m..], m, 2);
    ModShift(k, m);
    FirstPieceThen(input, m, 1, input[m..][..k - k % m]);
    assert input[..m] + input[m..][..k - k % m] == input[..|input| - |input| % m];
  }

  /** A three-byte file split at two bytes: the one byte left over is never
      encoded. */
  lemma AsWrittenDropsLastByte()
    ensures AsWrittenPieces([1, 2, 3], 2, 1) == [[1, 2]]
    ensures Flatten(AsWrittenPieces([1, 2, 3], 2, 1)) != [1, 2, 3]
  {
    assert [1, 2, 3][..2] == [1, 2];
    assert [1, 2, 3][2..] == [3];
    assert AsWrittenPieces([3], 2, 2) == [];
    assert Flatten([[1, 2]]) == [1, 2] + Flatten([]);
  }

  /** The evident intent: a shorter final piece is encoded too, and only an
      empty one after the first is skipped. */
  function IntendedPieces(rest: seq<byte>, m: nat, n: nat): seq<seq<byte>>
    requires m > 0
    decreases |rest|
  {
    if |rest| < m then (if n > 1 && rest == [] then [] else [rest])
    else [rest[..m]] + IntendedPieces(rest[m..], m, n + 1)
  }

  /** Under the intended splitting the pieces always give the file back,
      none is longer than max_file_size, and only an empty file yields an
      empty piece. */
  lemma {:induction false} IntendedRebuilds(rest: seq<byte>, m: nat, n: nat)
    requires m > 0 && n >= 1
    ensures var ps := IntendedPieces(rest, m, n);
      && Flatten(ps) == rest
      && (forall i :: 0 <= i < |ps| ==> |ps[i]| <= m)
      && (forall i :: 0 <= i < |ps| ==> ps[i] != [] || (rest == [] && n == 1))
    decreases |rest|
  {
    var ps := IntendedPieces(rest, m, n);
    if |rest| >= m {
      var tail := IntendedPieces(rest[m..], m, n + 1);
      IntendedRebuilds(rest[m..], m, n + 1);
      assert ps == [rest[..m]] + tail;
      assert ps[1..] == tail;
      forall i | 0 <= i < |ps| ensures |ps[i]| <= m && ps[i] != [] {
        if i > 0 {
          assert ps[i] == tail[i - 1];
        }
      }
      assert rest[..m] + rest[m..] == rest;
    } else if !(n > 1 && rest == []) {
      assert Flatten([rest]) == rest + Flatten([]);
    }
  }
}
