/** Splitting text at a separator and gluing it back: the one notion of "component" that the path
    and list code below shares. */
module Text {

  /** The position of the first `sep`, or the length. */
  function Find(s: string, sep: char): (k: nat)
    ensures k <= |s| && (k < |s| ==> s[k] == sep)
    ensures forall i :: 0 <= i < k ==> s[i] != sep
  {
    if |s| == 0 || s[0] == sep then 0 else 1 + Find(s[1..], sep)
  }

  predicate Free(s: string, sep: char) {
    forall i :: 0 <= i < |s| ==> s[i] != sep
  }

  /** The pieces between separators, empty ones included; never none at all. */
  function Pieces(s: string, sep: char): (ps: seq<string>)
    ensures |ps| >= 1
    decreases |s|
  {
    var k := Find(s, sep);
    if k == |s| then [s] else [s[..k]] + Pieces(s[k + 1..], sep)
  }

  function Glue(ps: seq<string>, sep: char): string {
    if |ps| == 0 then ""
    else if |ps| == 1 then ps[0]
    else ps[0] + [sep] + Glue(ps[1..], sep)
  }

  /** One step of the definition, for proofs that hide it. */
  lemma PiecesUnfold(s: string, sep: char)
    ensures var k := Find(s, sep);
      Pieces(s, sep) == if k == |s| then [s] else [s[..k]] + Pieces(s[k + 1..], sep)
  {
    hide Find;
  }

  lemma {:induction false} PiecesAreFree(s: string, sep: char)
    ensures forall i :: 0 <= i < |Pieces(s, sep)| ==> Free(Pieces(s, sep)[i], sep)
    decreases |s|
  {
    hide Pieces;
    PiecesUnfold(s, sep);
    if Find(s, sep) < |s| { PiecesAreFree(s[Find(s, sep) + 1..], sep); }
  }

  lemma FindFirst(a: string, b: string, sep: char)
    requires Free(a, sep)
    ensures Find(a + [sep] + b, sep) == |a|
    ensures Find(a, sep) == |a|
  {
    hide Find;
    var s := a + [sep] + b;
    assert s[|a|] == sep;
    assert forall i :: 0 <= i < |a| ==> s[i] == a[i];
  }

  lemma PiecesOfFree(s: string, sep: char)
    requires Free(s, sep)
    ensures Pieces(s, sep) == [s]
  {
    hide Pieces, Find;
    FindFirst(s, "", sep);
    PiecesUnfold(s, sep);
  }

  lemma Cut(s: string, k: nat)
    requires k < |s|
    ensures s == s[..k] + [s[k]] + s[k + 1..]
  {
  }

  lemma Uncut(h: string, sep: char, t: string)
    ensures (h + [sep] + t)[..|h|] == h && (h + [sep] + t)[|h| + 1..] == t
  {
  }

  lemma Assoc<T>(a: seq<T>, b: seq<T>, c: seq<T>)
    ensures a + (b + c) == a + b + c
  {
  }

  /** Splitting at the first separator peels off one piece. */
  lemma PiecesFirst(a: string, b: string, sep: char)
    requires Free(a, sep)
    ensures Pieces(a + [sep] + b, sep) == [a] + Pieces(b, sep)
  {
    hide Pieces, Find;
    FindFirst(a, b, sep);
    Uncut(a, sep, b);
    PiecesUnfold(a + [sep] + b, sep);
  }

  /** Splitting at a separator splits the pieces. */
  lemma {:induction false} PiecesOfConcat(a: string, b: string, sep: char)
    ensures Pieces(a + [sep] + b, sep) == Pieces(a, sep) + Pieces(b, sep)
    decreases |a|
  {
    hide Pieces;
    var k := Find(a, sep);
    PiecesUnfold(a, sep);
    if k == |a| {
      PiecesFirst(a, b, sep);
    } else {
      var h, t := a[..k], a[k + 1..];
      Cut(a, k);
      Assoc(h + [sep], t, [sep] + b);
      Assoc(t, [sep], b);
      Assoc(a, [sep], b);
      assert a + [sep] + b == h + [sep] + (t + [sep] + b);
      PiecesFirst(h, t + [sep] + b, sep);
      PiecesOfConcat(t, b, sep);
    }
  }

  lemma {:induction false} GluePieces(s: string, sep: char)
    ensures Glue(Pieces(s, sep), sep) == s
    decreases |s|
  {
    hide Pieces;
    var k := Find(s, sep);
    PiecesUnfold(s, sep);
    if k < |s| {
      var rest := Pieces(s[k + 1..], sep);
      GluePieces(s[k + 1..], sep);
      Cut(s, k);
    }
  }

  lemma {:induction false} PiecesOfGlue(ps: seq<string>, sep: char)
    requires |ps| >= 1 && forall i :: 0 <= i < |ps| ==> Free(ps[i], sep)
    ensures Pieces(Glue(ps, sep), sep) == ps
    decreases |ps|
  {
    hide Pieces, Find;
    if |ps| == 1 {
      PiecesOfFree(ps[0], sep);
    } else {
      PiecesOfGlue(ps[1..], sep);
      PiecesFirst(ps[0], Glue(ps[1..], sep), sep);
    }
  }

  lemma {:induction false} GlueAppend(ps: seq<string>, p: string, sep: char)
    requires |ps| >= 1
    ensures Glue(ps + [p], sep) == Glue(ps, sep) + [sep] + p
    decreases |ps|
  {
    if |ps| == 1 {
      assert (ps + [p])[1..] == [p];
    } else {
      assert (ps + [p])[1..] == ps[1..] + [p];
      GlueAppend(ps[1..], p, sep);
      assert ps[0] + [sep] + (Glue(ps[1..], sep) + [sep] + p) == ps[0] + [sep] + Glue(ps[1..], sep) + [sep] + p;
    }
  }

  // ----- slashes -----

  /** The position of the last slash, or -1. */
  function LastSlash(p: string): (k: int)
    ensures -1 <= k < |p|
    ensures k >= 0 ==> p[k] == '/'
    ensures forall i :: k < i < |p| ==> p[i] != '/'
  {
    if |p| == 0 then -1 else if p[|p| - 1] == '/' then |p| - 1 else LastSlash(p[..|p| - 1])
  }

  function Base(p: string): string {
    if LastSlash(p) < 0 then p else p[LastSlash(p) + 1..]
  }

  /** The directory part, with its trailing slash. */
  function DirOf(p: string): string {
    if LastSlash(p) < 0 then "" else p[..LastSlash(p) + 1]
  }

  lemma {:induction false} SlashOfJoin(dir: string, base: string)
    requires Free(base, '/') && (dir == "" || dir[|dir| - 1] == '/')
    ensures Base(dir + base) == base && DirOf(dir + base) == dir
  {
    hide LastSlash;
    var p := dir + base;
    assert dir != "" ==> p[|dir| - 1] == '/';
    assert forall i :: |dir| <= i < |p| ==> p[i] == base[i - |dir|];
    assert LastSlash(p) == |dir| - 1;
  }
}
