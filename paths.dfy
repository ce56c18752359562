/** `pathlib.PurePosixPath` as far as the hooks use it: the normalised text
    `str(Path(s))` and the final component `Path(s).name`. */
module PosixPath {
  import opened Text

  /** The components `Path` keeps: empty pieces (from `//` or a trailing `/`)
      and `.` pieces are dropped; `..` is kept. */
  function Parts(s: string): (r: seq<string>)
    ensures forall i :: 0 <= i < |r| ==> r[i] != [] && r[i] != "." && '/' !in r[i]
  {
    Filter(Split(s, '/'))
  }

  function Filter(pieces: seq<string>): (r: seq<string>)
    requires forall i :: 0 <= i < |pieces| ==> '/' !in pieces[i]
    ensures forall i :: 0 <= i < |r| ==> r[i] != [] && r[i] != "." && '/' !in r[i]
    ensures forall x :: x in r ==> x in pieces
  {
    if pieces == [] then []
    else if pieces[0] == [] || pieces[0] == "." then Filter(pieces[1..])
    else [pieces[0]] + Filter(pieces[1..])
  }

  /** `str(Path(s))`: a leading `/` is kept, the kept components are joined
      with single slashes, and a relative path with no components is `.`. */
  function Normalize(s: string): string {
    var parts := Parts(s);
    var absolute := s != [] && s[0] == '/';
    if parts == [] then (if absolute then "/" else ".")
    else (if absolute then "/" else "") + Join(parts, '/')
  }

  /** `Path(s).name`: the last kept component, or `""` when there is none. */
  function Name(s: string): (r: string)
    ensures '/' !in r
    ensures Parts(s) == [] ==> r == []
    ensures Parts(s) != [] ==> r == Parts(s)[|Parts(s)| - 1]
  {
    var parts := Parts(s);
    if parts == [] then [] else parts[|parts| - 1]
  }

  /** The base name of a plain `dir/.../file` path is its last piece. */
  lemma NameOfJoin(dirs: seq<string>, file: string)
    requires forall i :: 0 <= i < |dirs| ==> dirs[i] != [] && dirs[i] != "." && '/' !in dirs[i]
    requires file != [] && file != "." && '/' !in file
    ensures Name(Join(dirs + [file], '/')) == file
  {
    ProperAppend(dirs, file);
    PartsOfJoin(dirs + [file]);
  }

  lemma ProperAppend(dirs: seq<string>, file: string)
    requires forall i :: 0 <= i < |dirs| ==> dirs[i] != [] && dirs[i] != "." && '/' !in dirs[i]
    requires file != [] && file != "." && '/' !in file
    ensures var whole := dirs + [file];
      forall i :: 0 <= i < |whole| ==> whole[i] != [] && whole[i] != "." && '/' !in whole[i]
  {
    var whole := dirs + [file];
    forall i | 0 <= i < |whole|
      ensures whole[i] != [] && whole[i] != "." && '/' !in whole[i]
    {
      if i < |dirs| {
        assert whole[i] == dirs[i];
      }
    }
  }

  /** Joining proper components with `/` and reading the path back gives
      the same components. */
  lemma PartsOfJoin(whole: seq<string>)
    requires |whole| >= 1
    requires forall i :: 0 <= i < |whole| ==> whole[i] != [] && whole[i] != "." && '/' !in whole[i]
    ensures Parts(Join(whole, '/')) == whole
  {
    SplitJoin(whole);
    FilterKeepsAll(whole);
  }

  lemma {:induction false} SplitJoin(parts: seq<string>)
    requires |parts| >= 1
    requires forall i :: 0 <= i < |parts| ==> '/' !in parts[i]
    ensures Split(Join(parts, '/'), '/') == parts
  {
    if |parts| == 1 {
      SplitNoSep(parts[0]);
    } else {
      SplitJoin(parts[1..]);
      SplitSepAfter(parts[0], Join(parts[1..], '/'));
    }
  }

  lemma {:induction false} SplitNoSep(s: string)
    requires '/' !in s
    ensures Split(s, '/') == [s]
  {
    if s != [] {
      SplitNoSep(s[1..]);
      assert [s[0]] + s[1..] == s;
    }
  }

  lemma {:induction false} SplitSepAfter(a: string, b: string)
    requires '/' !in a
    ensures Split(a + "/" + b, '/') == [a] + Split(b, '/')
  {
    if a == [] {
      assert a + "/" + b == "/" + b;
      assert ("/" + b)[1..] == b;
    } else {
      assert (a + "/" + b)[1..] == a[1..] + "/" + b;
      SplitSepAfter(a[1..], b);
      assert [a[0]] + a[1..] == a;
    }
  }

  lemma {:induction false} FilterKeepsAll(pieces: seq<string>)
    requires forall i :: 0 <= i < |pieces| ==> pieces[i] != [] && pieces[i] != "." && '/' !in pieces[i]
    ensures Filter(pieces) == pieces
  {
    if pieces != [] {
      FilterKeepsAll(pieces[1..]);
    }
  }
}
