/** bx_host_world_guest_path: the guest's PATH, extended by the host's directories that it lacks. */
module HostPath {
  import opened Text

  /** hw_path_has, with its moving start: is `part` one of the colon-separated components. */
  method PathHas(path: string, part: string) returns (b: bool)
    ensures b <==> part in Pieces(path, ':')
  {
    hide Pieces, Find;
    var p := path;
    while true
      invariant part in Pieces(path, ':') <==> part in Pieces(p, ':')
      decreases |p|
    {
      var n := Find(p, ':');
      PiecesUnfold(p, ':');
      if p[..n] == part { OnePiece(p, n); return true; }
      if n == |p| { OnePiece(p, n); return false; }
      p := p[n + 1..];
    }
  }

  lemma OnePiece(p: string, n: nat)
    requires n == Find(p, ':')
    ensures n == |p| ==> Pieces(p, ':') == [p[..n]]
    ensures p[..n] in Pieces(p, ':')
  {
    PiecesUnfold(p, ':');
    assert p[..|p|] == p;
  }

  predicate Absolute(c: string) { |c| > 0 && c[0] == '/' }

  /** The components of `more` that are absolute and not known yet, each once, in order. */
  function News(known: seq<string>, more: seq<string>): (ns: seq<string>)
    decreases |more|
  {
    if |more| == 0 then []
    else if Absolute(more[0]) && more[0] !in known then [more[0]] + News(known + [more[0]], more[1..])
    else News(known, more[1..])
  }

  predicate NoRepeats(ns: seq<string>) {
    forall i, j :: 0 <= i < j < |ns| ==> ns[i] != ns[j]
  }

  lemma {:induction false} NewsAreNew(known: seq<string>, more: seq<string>)
    ensures var ns := News(known, more);
      && (forall n :: n in ns ==> Absolute(n) && n in more && n !in known)
      && NoRepeats(ns)
    ensures forall m :: m in more && Absolute(m) ==> m in known || m in News(known, more)
    decreases |more|
  {
    if |more| > 0 {
      var c := more[0];
      if Absolute(c) && c !in known {
        NewsAreNew(known + [c], more[1..]);
        var rest := News(known + [c], more[1..]);
        assert c in known + [c];
        assert forall n :: n in rest ==> n !in known + [c];
        assert forall n :: n in known ==> n in known + [c];
        assert News(known, more) == [c] + rest;
        assert c in [c] + rest;
        assert forall n :: n in rest ==> n in [c] + rest;
      } else {
        NewsAreNew(known, more[1..]);
      }
    }
  }

  /** What is new comes in the order of the list: an absolute component that is neither known nor listed
      before follows directly on the news of what stands before it. */
  lemma {:induction false} NewsInOrder(known: seq<string>, more: seq<string>, i: nat)
    requires i < |more| && Absolute(more[i]) && more[i] !in known && more[i] !in more[..i]
    ensures News(known, more[..i]) + [more[i]] <= News(known, more)
    decreases |more|
  {
    hide Absolute;
    if i > 0 {
      var c := more[0];
      assert c == more[..i][0] && more[..i][1..] == more[1..][..i - 1] && more[1..][i - 1] == more[i];
      forall x | x in more[1..][..i - 1] ensures x in more[..i] { assert x in more[..i][1..]; }
      NewsInOrder(if Absolute(c) && c !in known then known + [c] else known, more[1..], i - 1);
    }
  }

  /** Nothing is new the second time. */
  lemma {:induction false} NothingNew(known: seq<string>, more: seq<string>)
    requires forall m :: m in more && Absolute(m) ==> m in known
    ensures News(known, more) == []
    decreases |more|
  {
    if |more| > 0 { NothingNew(known, more[1..]); }
  }

  /** The space all pieces of a list take, a separator each. */
  function Room(ps: seq<string>): nat {
    if |ps| == 0 then 0 else |ps[0]| + 1 + Room(ps[1..])
  }

  lemma {:induction false} PiecesRoom(s: string)
    ensures Room(Pieces(s, ':')) == |s| + 1
    decreases |s|
  {
    hide Pieces;
    var k := Find(s, ':');
    PiecesUnfold(s, ':');
    if k < |s| {
      PiecesRoom(s[k + 1..]);
      assert ([s[..k]] + Pieces(s[k + 1..], ':'))[1..] == Pieces(s[k + 1..], ':');
    }
  }

  function Extended(guest: string, host: string): seq<string> {
    Pieces(guest, ':') + News(Pieces(guest, ':'), Pieces(host, ':'))
  }

  lemma AppendPiece(joined: string, c: string)
    requires Free(c, ':')
    ensures Pieces(joined + ":" + c, ':') == Pieces(joined, ':') + [c]
  {
    PiecesOfConcat(joined, c, ':');
    PiecesOfFree(c, ':');
  }

  lemma NewsStep(known: seq<string>, c: string, rest: seq<string>)
    ensures known + News(known, [c] + rest) ==
      if Absolute(c) && c !in known then (known + [c]) + News(known + [c], rest) else known + News(known, rest)
  {
    assert ([c] + rest)[1..] == rest;
  }

  /** The loop over the host's list.  The text grows within a buffer of `|guest| + |host| + 2` bytes,
      its terminator included. */
  method GuestPath(guest: string, host: string) returns (joined: string)
    ensures Pieces(joined, ':') == Extended(guest, host)
    ensures |joined| + 1 <= |guest| + |host| + 2
    ensures guest <= joined
  {
    hide Pieces, Find, News;
    joined := guest;
    var p := host;
    var more := |p| > 0;
    PiecesRoom(host);
    EmptyHost(Pieces(guest, ':'));
    while more
      invariant guest <= joined
      invariant Extended(guest, host) ==
        Pieces(joined, ':') + (if more then News(Pieces(joined, ':'), Pieces(p, ':')) else [])
      invariant |joined| + (if more then |p| + 1 else 0) <= |guest| + |host| + 1
      decreases |p|, more
    {
      var n := Find(p, ':');
      var c := p[..n];
      PiecesUnfold(p, ':');
      OnePiece(p, n);
      ghost var known := Pieces(joined, ':');
      ghost var rest := if n == |p| then [] else Pieces(p[n + 1..], ':');
      assert Pieces(p, ':') == [c] + rest;
      NewsStep(known, c, rest);
      var has := PathHas(joined, c);
      if |c| > 0 && c[0] == '/' && !has {
        AppendPiece(joined, c);
        joined := joined + ":" + c;
      }
      NoNews(Pieces(joined, ':'));
      if n == |p| {
        more := false;
      } else {
        p := p[n + 1..];
        if |p| == 0 { EmptyHost(Pieces(joined, ':')); }
        more := |p| > 0;
      }
    }
  }

  lemma NoNews(known: seq<string>)
    ensures News(known, []) == []
  {
  }

  lemma EmptyHost(known: seq<string>)
    ensures News(known, Pieces("", ':')) == []
  {
    PiecesOfFree("", ':');
  }

  /** Extending keeps the guest's components in front, adds each missing absolute host directory
      exactly once, and adds nothing else. */
  lemma ExtendedMeans(guest: string, host: string)
    ensures var g, r := Pieces(guest, ':'), Extended(guest, host);
      && |r| >= |g| && r[..|g|] == g
      && (forall c :: c in Pieces(host, ':') && Absolute(c) ==> c in r)
      && (forall i :: |g| <= i < |r| ==> Absolute(r[i]) && r[i] in Pieces(host, ':') && r[i] !in g)
      && (forall i :: |g| <= i < |r| ==> r[i] != "" && r[i][0] == '/')
      && NoRepeats(r[|g|..])
  {
    hide Pieces, News, NoRepeats;
    var g, h := Pieces(guest, ':'), Pieces(host, ':');
    var ns := News(g, h);
    NewsAreNew(g, h);
    Behind(g, ns);
    forall c | c in h && Absolute(c) ensures c in g + ns { assert c in g || c in ns; }
  }

  /** The elements of the second of two lists, at their places in both together. */
  lemma Behind(g: seq<string>, ns: seq<string>)
    ensures forall i :: |g| <= i < |g + ns| ==> (g + ns)[i] == ns[i - |g|] && (g + ns)[i] in ns
    ensures (g + ns)[..|g|] == g && (g + ns)[|g|..] == ns
  {
    forall i | |g| <= i < |g + ns| ensures (g + ns)[i] in ns { assert (g + ns)[i] == ns[i - |g|]; }
  }

  /** Extending twice is extending once. */
  lemma ExtendIdempotent(guest: string, host: string, once: string, twice: string)
    requires Pieces(once, ':') == Extended(guest, host) && Pieces(twice, ':') == Extended(once, host)
    ensures twice == once
  {
    hide Pieces, News;
    ExtendedMeans(guest, host);
    NothingNew(Pieces(once, ':'), Pieces(host, ':'));
    assert Extended(once, host) == Pieces(once, ':');
    GluePieces(once, ':');
    GluePieces(twice, ':');
  }
}
