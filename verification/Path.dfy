/** File paths: a string cut at its slashes, and put together again. */
module Path {
  /** A path's fields. A folder's text ends with a slash. */
  datatype Value = Value(parts: seq<string>, folder: bool)

  predicate IsSpace(c: char) {
    c == ' ' || c == '\n' || c == '\t' || c as int == 11 || c as int == 12 || c == '\r'
  }

  predicate Blank(s: string) {
    forall i :: 0 <= i < |s| ==> IsSpace(s[i])
  }

  /** The string a path is read from: a relative one starts at the root, and a blank one gets a slash behind it. */
  function Absolute(s: string): string {
    var t := if Blank(s) then s + "/" else s;
    if t[0] != '/' then "/" + t else t
  }

  /** The pieces between slashes: one more than there are slashes. */
  function Pieces(t: string): (ps: seq<string>)
    ensures |ps| > 0
  {
    if t == "" then [""]
    else
      var ps := Pieces(t[1..]);
      if t[0] == '/' then [""] + ps else [[t[0]] + ps[0]] + ps[1..]
  }

  function Join(ps: seq<string>): string
    requires |ps| > 0
  {
    if |ps| == 1 then ps[0] else ps[0] + "/" + Join(ps[1..])
  }

  function Last<T>(s: seq<T>): T requires |s| > 0 { s[|s| - 1] }

  function Front<T>(s: seq<T>): seq<T> requires |s| > 0 { s[..|s| - 1] }

  /** An empty last piece is not a part: the string ended with a slash. */
  function PartsOf(t: string): seq<string> {
    var ps := Pieces(t);
    if Last(ps) == "" then Front(ps) else ps
  }

  function Parse(s: string): Value {
    var t := Absolute(s);
    Value(PartsOf(t[1..]), Last(t) == '/')
  }

  /** The text of parts, each with a slash after it; the last one only in a folder. */
  function Text(v: Value): string {
    "/" + TextFrom(v, 0)
  }

  function TextFrom(v: Value, i: nat): string
    decreases |v.parts| - i
  {
    if i >= |v.parts| then ""
    else v.parts[i] + (if v.folder || i < |v.parts| - 1 then "/" else "") + TextFrom(v, i + 1)
  }

  /** The file itself is not part of the depth. */
  function Depth(v: Value): int {
    if v.folder then |v.parts| else |v.parts| - 1
  }

  /** No part holds a slash, and a file has a name. */
  ghost predicate WellFormed(v: Value) {
    && (forall i :: 0 <= i < |v.parts| ==> '/' !in v.parts[i])
    && (v.folder || (v.parts != [] && Last(v.parts) != ""))
  }

  lemma {:induction false} PiecesJoin(t: string)
    ensures Join(Pieces(t)) == t
  {
    if t != "" {
      var ps := Pieces(t[1..]);
      PiecesJoin(t[1..]);
      if t[0] == '/' {
        assert ([""] + ps)[1..] == ps;
      } else {
        assert Pieces(t)[1..] == ps[1..];
        assert t == [t[0]] + t[1..];
      }
    }
  }

  lemma {:induction false} PiecesNoSlash(t: string)
    ensures forall i :: 0 <= i < |Pieces(t)| ==> '/' !in Pieces(t)[i]
  {
    if t != "" {
      PiecesNoSlash(t[1..]);
    }
  }

  lemma {:induction false} PiecesLast(t: string)
    ensures Last(Pieces(t)) == "" <==> t == "" || Last(t) == '/'
  {
    if |t| > 1 {
      PiecesLast(t[1..]);
      assert Last(t) == Last(t[1..]);
    } else if |t| == 1 {
      assert Pieces(t[1..]) == [""];
    }
  }

  /** The pieces of joined pieces are those pieces. */
  lemma {:induction false} JoinPieces(ps: seq<string>)
    requires |ps| > 0 && forall i :: 0 <= i < |ps| ==> '/' !in ps[i]
    ensures Pieces(Join(ps)) == ps
    decreases |ps|, |ps[0]|
  {
    var t := Join(ps);
    if ps[0] == "" {
      if |ps| > 1 {
        JoinPieces(ps[1..]);
        assert t[1..] == Join(ps[1..]);
      }
    } else {
      var qs := [ps[0][1..]] + ps[1..];
      assert qs[1..] == ps[1..];
      JoinPieces(qs);
      assert ps[0][0] in ps[0] && [ps[0][0]] + ps[0][1..] == ps[0];
      assert t[0] == ps[0][0] && t[1..] == Join(qs);
    }
  }

  /** The text of a path is its pieces joined; a folder has an empty one at the end. */
  lemma {:induction false} TextIsJoin(v: Value, i: nat)
    requires i < |v.parts|
    ensures TextFrom(v, i) == Join(v.parts[i..] + if v.folder then [""] else [])
    decreases |v.parts| - i
  {
    var ps := v.parts[i..] + if v.folder then [""] else [];
    if i + 1 < |v.parts| {
      TextIsJoin(v, i + 1);
      assert ps[1..] == v.parts[i + 1..] + if v.folder then [""] else [];
    } else {
      assert v.parts[i..] == [v.parts[i]];
      assert TextFrom(v, i + 1) == "";
      if v.folder { assert ps[1..] == [""]; }
    }
  }

  ghost function AllPieces(v: Value): seq<string> {
    v.parts + if v.folder then [""] else []
  }

  lemma TextPieces(v: Value)
    requires WellFormed(v)
    ensures AllPieces(v) != [] && Text(v)[1..] == Join(AllPieces(v)) && Pieces(Text(v)[1..]) == AllPieces(v)
  {
    if v.parts != [] {
      TextIsJoin(v, 0);
      assert v.parts[0..] == v.parts;
    }
    assert Text(v)[1..] == TextFrom(v, 0);
    JoinPieces(AllPieces(v));
  }

  lemma TextStart(v: Value)
    ensures |Text(v)| > 0 && Text(v)[0] == '/'
  {
  }

  /** Reading a path and printing it gives the string back, made absolute. */
  lemma ParseText(s: string)
    ensures WellFormed(Parse(s)) && Text(Parse(s)) == Absolute(s)
  {
    hide Pieces, Join, Text;
    var t, v := Absolute(s), Parse(s);
    PiecesJoin(t[1..]);
    PiecesNoSlash(t[1..]);
    PiecesLast(t[1..]);
    assert Last(t) == '/' <==> t[1..] == "" || Last(t[1..]) == '/';
    assert AllPieces(v) == Pieces(t[1..]);
    TextPieces(v);
    TextStart(v);
    assert t == "/" + t[1..] && Text(v) == "/" + Text(v)[1..];
  }

  /** Two well-formed paths have the same text exactly when they have the same parts and kind. */
  lemma TextInjective(v: Value, w: Value)
    requires WellFormed(v) && WellFormed(w)
    ensures Text(v) == Text(w) <==> v == w
  {
    hide Text, Pieces;
    TextPieces(v);
    TextPieces(w);
    if Text(v) == Text(w) {
      assert AllPieces(v) == AllPieces(w);
      assert v.folder == w.folder by {
        assert Last(AllPieces(v)) == "" <==> v.folder;
        assert Last(AllPieces(w)) == "" <==> w.folder;
      }
      assert v.parts == AllPieces(v)[..|v.parts|] && w.parts == AllPieces(w)[..|w.parts|];
    }
  }

  /** A parsed path prints as the string it was parsed from, with a slash in front if there was none; a string of
      nothing but white space also gets one behind it. */
  lemma RoundTrip(s: string)
    ensures s != "" && s[0] == '/' ==> Text(Parse(s)) == s
    ensures (exists c :: c in s && c as int !in {9, 10, 11, 12, 13, 32}) && s[0] != '/' ==> Text(Parse(s)) == "/" + s
    ensures s != "" && (forall c :: c in s ==> c as int in {9, 10, 11, 12, 13, 32}) ==> Text(Parse(s)) == "/" + s + "/"
    ensures s == "" ==> Text(Parse(s)) == "/"
  {
    ParseText(s);
    assert forall i :: 0 <= i < |s| ==> (IsSpace(s[i]) <==> s[i] as int in {9, 10, 11, 12, 13, 32}) && s[i] in s;
    hide Parse, Text, WellFormed;
  }

  /** A blank string is the root if and only if it is empty; otherwise it is a folder with a blank name. */
  lemma BlankPath(s: string)
    requires Blank(s)
    ensures Parse(s) == Value([], true) <==> s == ""
    ensures s != "" ==> Parse(s) == Value([s], true)
  {
    if s != "" {
      assert Absolute(s) == "/" + (s + "/") && Absolute(s)[1..] == s + "/";
      OnePiece(s);
    }
  }

  lemma {:induction false} OnePiece(s: string)
    requires '/' !in s
    ensures Pieces(s + "/") == [s, ""]
  {
    if s != "" {
      assert (s + "/")[1..] == s[1..] + "/" && s == [s[0]] + s[1..];
      OnePiece(s[1..]);
    } else {
      assert s + "/" == "/" && "/"[1..] == "";
    }
  }

  /** A path under a mount: its text is the mount's, less the last slash, and the rest of the path's. */
  lemma {:induction false} MountText(mount: Value, v: Value)
    requires mount.folder && |mount.parts| <= |v.parts| && v.parts[..|mount.parts|] == mount.parts
    requires |mount.parts| < |v.parts| || v.folder
    ensures var rest := Value(v.parts[|mount.parts|..], v.folder);
            Text(v) == Front(Text(mount)) + Text(rest)
    decreases |mount.parts|
  {
    var n := |mount.parts|;
    var rest := Value(v.parts[n..], v.folder);
    TextSkip(v, n, 0);
    TextTake(mount, v, 0);
    EndsWithSlash(mount, 0);
    assert n == 0 ==> TextFrom(mount, 0) == "";
    hide TextFrom;
    JoinAtSlash(TextFrom(mount, 0), TextFrom(v, n));
  }

  lemma JoinAtSlash(a: string, b: string)
    requires a == "" || Last(a) == '/'
    ensures "/" + (a + b) == Front("/" + a) + ("/" + b)
  {
    assert Last("/" + a) == '/';
    assert "/" + a == Front("/" + a) + "/";
    assert "/" + (a + b) == "/" + a + b;
  }

  lemma {:induction false} EndsWithSlash(v: Value, i: nat)
    requires v.folder && i <= |v.parts|
    ensures i < |v.parts| ==> TextFrom(v, i) != "" && Last(TextFrom(v, i)) == '/'
    decreases |v.parts| - i
  {
    if i < |v.parts| {
      EndsWithSlash(v, i + 1);
    }
  }

  lemma {:induction false} TextSkip(v: Value, n: nat, i: nat)
    requires n + i <= |v.parts|
    ensures TextFrom(v, n + i) == TextFrom(Value(v.parts[n..], v.folder), i)
    decreases |v.parts| - i
  {
    if n + i < |v.parts| {
      TextSkip(v, n, i + 1);
    }
  }

  lemma {:induction false} TextTake(mount: Value, v: Value, i: nat)
    requires mount.folder && |mount.parts| <= |v.parts| && v.parts[..|mount.parts|] == mount.parts
    requires |mount.parts| < |v.parts| || v.folder
    requires i <= |mount.parts|
    ensures TextFrom(v, i) == TextFrom(mount, i) + TextFrom(v, |mount.parts|)
    decreases |mount.parts| - i
  {
    if i < |mount.parts| {
      TextTake(mount, v, i + 1);
      assert v.parts[i] == mount.parts[i];
    }
  }

  /** A path without one of its parts. */
  function Without(v: Value, i: nat): Value
    requires i < |v.parts|
  {
    Value(v.parts[..i] + v.parts[i + 1..], v.folder)
  }

  /** Removing a part cuts it, with the slash behind it, out of the text. */
  lemma CutOut(v: Value, i: nat)
    requires i < |v.parts|
    ensures var before, after := Text(Value(v.parts[..i], true)), TextFrom(v, i + 1);
            if v.folder || i < |v.parts| - 1 then
              Text(v) == before + v.parts[i] + "/" + after && Text(Without(v, i)) == before + after
            else
              Text(v) == before + v.parts[i] && Text(Without(v, i)) == if i == 0 then "/" else Front(before)
  {
    hide TextFrom, Text, Last, Front, Without;
    PartText(v, i);
    if v.folder || i < |v.parts| - 1 {
      WithoutText(v, i);
    } else {
      TextPastEnd(v);
      NothingBehind(Text(Value(v.parts[..i], true)) + v.parts[i]);
      WithoutName(v);
    }
  }

  /** The text around part i. */
  lemma PartText(v: Value, i: nat)
    requires i < |v.parts|
    ensures Text(v) == Text(Value(v.parts[..i], true)) + v.parts[i] + Slash(v, i) + TextFrom(v, i + 1)
  {
    hide TextFrom, Text;
    var mount := Value(v.parts[..i], true);
    MountText(mount, v);
    RestText(v, i);
    FolderText(mount);
    hide Last, Front, Slash;
    JoinCut(Front(Text(mount)), v.parts[i], Slash(v, i), TextFrom(v, i + 1));
  }

  /** A file's path without its name. */
  lemma WithoutName(v: Value)
    requires v.parts != [] && !v.folder
    ensures Text(Without(v, |v.parts| - 1)) ==
            if |v.parts| == 1 then "/" else Front(Text(Value(v.parts[..|v.parts| - 1], true)))
  {
    hide Text;
    var n := |v.parts| - 1;
    assert Without(v, n).parts == v.parts[..n];
    FileText(Without(v, n));
  }

  lemma NothingBehind(s: string)
    ensures s + "" + "" == s
  {
  }

  lemma WithoutText(v: Value, i: nat)
    requires i < |v.parts| && (v.folder || i < |v.parts| - 1)
    ensures Text(Without(v, i)) == Text(Value(v.parts[..i], true)) + TextFrom(v, i + 1)
  {
    hide TextFrom;
    var mount, w := Value(v.parts[..i], true), Without(v, i);
    assert w.parts[..i] == mount.parts && w.parts[i..] == v.parts[i + 1..];
    MountText(mount, w);
    TextSkip(v, i + 1, 0);
    FolderText(mount);
    var f, t := Front(Text(mount)), TextFrom(v, i + 1);
    assert f + ("/" + t) == f + "/" + t;
  }

  lemma FolderText(v: Value)
    requires v.folder
    ensures Text(v) == Front(Text(v)) + "/"
  {
    EndsWithSlash(v, 0);
    assert v.parts == [] ==> TextFrom(v, 0) == "";
  }

  /** What the text has behind a part. */
  function Slash(v: Value, i: nat): string {
    if v.folder || i < |v.parts| - 1 then "/" else ""
  }

  lemma RestText(v: Value, i: nat)
    requires i < |v.parts|
    ensures Text(Value(v.parts[i..], v.folder)) ==
            "/" + (v.parts[i] + Slash(v, i) + TextFrom(v, i + 1))
  {
    TextSkip(v, i, 0);
  }

  lemma TextPastEnd(v: Value)
    ensures TextFrom(v, |v.parts|) == ""
  {
  }

  lemma JoinCut(a: string, b: string, c: string, d: string)
    ensures a + ("/" + (b + c + d)) == a + "/" + b + c + d
  {
  }

  /** A file's text is that of the folder with its parts, less the last slash. */
  lemma FileText(v: Value)
    requires !v.folder
    ensures Text(v) == if v.parts == [] then "/" else Front(Text(Value(v.parts, true)))
  {
    FileTextFrom(v, 0);
    assert ("/" + TextFrom(v, 0)) + "/" == "/" + (TextFrom(v, 0) + "/");
  }

  lemma {:induction false} FileTextFrom(v: Value, i: nat)
    requires !v.folder && i <= |v.parts|
    ensures TextFrom(Value(v.parts, true), i) == TextFrom(v, i) + if i < |v.parts| then "/" else ""
    decreases |v.parts| - i
  {
    if i < |v.parts| {
      FileTextFrom(v, i + 1);
    }
  }

  /** What fill_vector has read, and what is left to read. */
  ghost predicate Filling(t: string, p: nat, parts: seq<string>, current: string)
    requires p <= |t|
  {
    var rest := Pieces(t[p..]);
    Pieces(t) == parts + [current + rest[0]] + rest[1..]
  }

  lemma FillStart(t: string)
    ensures Filling(t, 0, [], "")
  {
    assert t[0..] == t && "" + Pieces(t)[0] == Pieces(t)[0];
    assert [Pieces(t)[0]] + Pieces(t)[1..] == Pieces(t);
  }

  lemma FillStep(t: string, p: nat, parts: seq<string>, current: string)
    requires p < |t| && Filling(t, p, parts, current)
    ensures t[p] == '/' ==> Filling(t, p + 1, parts + [current], "")
    ensures t[p] != '/' ==> Filling(t, p + 1, parts, current + [t[p]])
  {
    var rest, next := Pieces(t[p..]), Pieces(t[p + 1..]);
    assert t[p..][1..] == t[p + 1..];
    if t[p] == '/' {
      assert rest[1..] == next && current + rest[0] == current;
      assert "" + next[0] == next[0] && next == [next[0]] + next[1..];
    } else {
      assert rest[1..] == next[1..];
      assert current + rest[0] == current + [t[p]] + next[0];
    }
  }

  lemma FillEnd(t: string, parts: seq<string>, current: string)
    requires Filling(t, |t|, parts, current)
    ensures PartsOf(t) == if current == "" then parts else parts + [current]
  {
    assert t[|t|..] == "" && current + "" == current;
    assert Pieces(t) == parts + [current] + [];
  }

  class Path {
    var parts: seq<string>
    var folder: bool

    function Fields(): Value reads this {
      Value(parts, folder)
    }

    /** The characters are those of a C string, so none of them is the terminator. */
    constructor (text: string)
      requires forall i :: 0 <= i < |text| ==> text[i] as int != 0
      ensures Fields() == Parse(text)
    {
      var s := text;
      var blank := true;
      for i := 0 to |s|
        invariant blank <==> forall j :: 0 <= j < i ==> IsSpace(s[j])
      {
        blank := blank && IsSpace(s[i]);
      }
      if blank {
        s := s + "/";
      }
      if s[0] != '/' {
        s := "/" + s;
      }
      assert s == Absolute(text);
      hide Absolute, PartsOf;
      parts := [];
      folder := s[|s| - 1] == '/';
      new;
      FillVector(s);
    }

    method FillVector(s: string)
      requires |s| > 0 && parts == []
      modifies this`parts
      ensures parts == PartsOf(s[1..])
    {
      hide Filling, PartsOf;
      ghost var t := s[1..];
      var current := "";
      FillStart(t);
      for i := 1 to |s|
        invariant Filling(t, i - 1, parts, current)
      {
        FillStep(t, i - 1, parts, current);
        if s[i] == '/' {
          parts := parts + [current];
          current := "";
        } else {
          current := current + [s[i]];
        }
      }
      FillEnd(t, parts, current);
      if current != "" {
        parts := parts + [current];
      }
    }

    method ToString() returns (s: string)
      ensures s == Text(Fields())
    {
      s := "/";
      for i := 0 to |parts|
        invariant s + TextFrom(Fields(), i) == Text(Fields())
      {
        s := s + parts[i];
        if folder || i < |parts| - 1 {
          s := s + "/";
        }
      }
    }

    method GetDepth() returns (depth: int)
      ensures depth == Depth(Fields())
    {
      depth := if folder then |parts| else |parts| - 1;
    }

    /** A copy of a path. */
    constructor Copy(other: Value)
      ensures Fields() == other
    {
      parts, folder := other.parts, other.folder;
    }

    /** The part and the slash behind it are cut out of the text; with a file's name goes the slash before it. */
    method RemovePart(index: nat)
      requires index < |parts|
      modifies this`parts
      ensures parts == old(parts)[..index] + old(parts)[index + 1..]
      ensures var part, after := old(parts)[index], TextFrom(old(Fields()), index + 1);
              var before := Text(Value(old(parts)[..index], true));
              if folder || index < |old(parts)| - 1 then
                old(Text(Fields())) == before + part + "/" + after && Text(Fields()) == before + after
              else
                old(Text(Fields())) == before + part && Text(Fields()) == if index == 0 then "/" else Front(before)
    {
      hide TextFrom;
      ghost var v := Fields();
      parts := parts[..index] + parts[index + 1..];
      CutOut(v, index);
    }

    /** A folder's last part and its slash leave the end of the text. Anything else is a panic in the source. */
    method GoUp() returns (done: bool)
      modifies this`parts
      ensures done <==> old(folder && parts != [])
      ensures done ==> old(Text(Fields())) == Text(Fields()) + old(Last(parts)) + "/"
      ensures !done ==> Fields() == old(Fields())
    {
      hide TextFrom;
      var depth := GetDepth();
      if depth == 0 || !folder {
        return false;
      }
      ghost var v := Fields();
      CutOut(v, |parts| - 1);
      TextPastEnd(v);
      parts := parts[..|parts| - 1];
      assert v.parts[..|v.parts| - 1] + v.parts[|v.parts|..] == parts;
      done := true;
    }

    method Equals(other: Path) returns (equal: bool)
      ensures equal <==> Text(Fields()) == Text(other.Fields())
      ensures WellFormed(Fields()) && WellFormed(other.Fields()) ==> (equal <==> Fields() == other.Fields())
    {
      var s := ToString();
      var t := other.ToString();
      equal := t == s;
      if WellFormed(Fields()) && WellFormed(other.Fields()) {
        TextInjective(Fields(), other.Fields());
      }
    }
  }
}
