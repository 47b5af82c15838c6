/** The parts of Python's `pathlib.PurePosixPath` that the markdown generator uses:
    the `/` operator, `.name`, `.stem` (Python 3.12 rules) and `str()`. */
module PyPath {
  import opened PyText

  /** A path: its anchor (`""`, `"/"` or `"//"`) and its parts, none empty or `"."`. */
  datatype Path = Path(anchor: string, parts: seq<string>)

  /** A file name pathlib keeps as a single part. */
  predicate IsComponent(s: string) {
    s != "" && s != "." && '/' !in s
  }

  function KeepComponents(pieces: seq<string>): (r: seq<string>)
    requires forall k :: 0 <= k < |pieces| ==> '/' !in pieces[k]
    ensures forall k :: 0 <= k < |r| ==> IsComponent(r[k])
  {
    if pieces == [] then []
    else (if pieces[0] != "" && pieces[0] != "." then [pieces[0]] else []) + KeepComponents(pieces[1..])
  }

  /** The parts pathlib makes of a string: the pieces between slashes, without empty and `"."` pieces. */
  function Components(s: string): (r: seq<string>)
    ensures forall k :: 0 <= k < |r| ==> IsComponent(r[k])
  {
    KeepComponents(Split(s, '/'))
  }

  /** POSIX paths keep exactly two leading slashes; one, or three or more, become one. */
  function Anchor(s: string): string {
    if |s| >= 2 && s[0] == '/' && s[1] == '/' && (|s| == 2 || s[2] != '/') then "//"
    else if |s| >= 1 && s[0] == '/' then "/"
    else ""
  }

  function FromString(s: string): Path {
    Path(Anchor(s), Components(s))
  }

  /** `p / s`: an absolute `s` replaces `p`; otherwise its parts are appended. */
  function Div(p: Path, s: string): Path {
    if s != [] && s[0] == '/' then FromString(s) else Path(p.anchor, p.parts + Components(s))
  }

  /** `p.name`: the last part, or `""` when there is none. */
  function Name(p: Path): string {
    if p.parts == [] then "" else p.parts[|p.parts| - 1]
  }

  /** The index of the last `c` in `s`, or -1 (`str.rfind`). */
  function RFind(s: string, c: char): (i: int)
    ensures -1 <= i < |s|
    ensures 0 <= i ==> s[i] == c
    ensures forall j :: i < j < |s| ==> s[j] != c
  {
    if s == [] then -1 else if s[|s| - 1] == c then |s| - 1 else RFind(s[..|s| - 1], c)
  }

  /** `p.stem`: the name without its suffix, where a suffix starts at the last dot
      provided that dot is neither the first nor the last character of the name. */
  function Stem(p: Path): string {
    var name := Name(p);
    var i := RFind(name, '.');
    if 0 < i < |name| - 1 then name[..i] else name
  }

  /** `str(p)`. */
  function Text(p: Path): string {
    if p.anchor == "" && p.parts == [] then "." else p.anchor + Join(p.parts, "/")
  }

  /** Appending a single relative file name adds exactly that part, which becomes the name. */
  lemma DivComponent(p: Path, s: string)
    requires IsComponent(s)
    ensures Div(p, s) == Path(p.anchor, p.parts + [s])
    ensures Name(Div(p, s)) == s
  {
    assert s[0] != '/';
    assert FindFirst(s, c => c == '/') == |s|;
    assert Split(s, '/') == [s];
    assert KeepComponents([s]) == [s] + KeepComponents([]);
  }

  /** The name of `p / s` is the last part of `s`; when `s` has no part it is the name of
      `p`, or nothing when `s` is absolute. */
  lemma NameOfDiv(p: Path, s: string)
    ensures Components(s) != [] ==> Name(Div(p, s)) == Components(s)[|Components(s)| - 1]
    ensures Components(s) == [] ==> Name(Div(p, s)) == if s != [] && s[0] == '/' then "" else Name(p)
  {
    if s == [] || s[0] != '/' {
      assert Div(p, s).parts == p.parts + Components(s);
      if Components(s) == [] {
        assert p.parts + Components(s) == p.parts;
      }
    }
  }

  /** The stem of `base.ipynb` is `base` whenever `base` is not empty. */
  lemma StemOfNotebook(p: Path, base: string)
    requires base != "" && Name(p) == base + ".ipynb"
    ensures Stem(p) == base
  {
    var name := base + ".ipynb";
    assert name[|base|] == '.';
    assert forall j :: |base| < j < |name| ==> name[j] != '.';
    assert RFind(name, '.') == |base|;
    assert name[..|base|] == base;
  }
}
