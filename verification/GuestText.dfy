/** Resolved guest paths as text: what the string tests of the resolver mean on components. */
module GuestText {
  import opened Text
  import opened GuestPath

  predicate Named(cs: Comps) { forall i :: 0 <= i < |cs| ==> |cs[i]| > 0 && Free(cs[i], '/') }

  lemma NormalIsNamed(cs: Comps)
    requires Normal(cs)
    ensures Named(cs)
  {
  }

  lemma ShownAppend(cs: Comps, c: string)
    ensures Shown(cs + [c]) == if |cs| == 0 then ['/'] + c else Shown(cs) + ['/'] + c
  {
    if |cs| == 0 {
      assert cs + [c] == [c];
    } else {
      GlueAppend(cs, c, '/');
      assert ['/'] + (Glue(cs, '/') + ['/'] + c) == (['/'] + Glue(cs, '/')) + ['/'] + c;
    }
  }

  /** The text of a nonempty path: what stands before its last component, and that component. */
  lemma ShownLast(cs: Comps)
    requires |cs| > 0
    ensures var ps, c := cs[..|cs| - 1], cs[|cs| - 1];
      Shown(cs) == if |cs| == 1 then ['/'] + c else Shown(ps) + ['/'] + c
  {
    ShownAppend(cs[..|cs| - 1], cs[|cs| - 1]);
    assert cs[..|cs| - 1] + [cs[|cs| - 1]] == cs;
  }

  /** Cutting at the last slash, the root staying the root. */
  function UpText(p: string): string {
    if LastSlash(p) <= 0 then "/" else p[..LastSlash(p)]
  }

  lemma LastSlashOf(h: string, c: string)
    requires Free(c, '/')
    ensures LastSlash(h + ['/'] + c) == |h|
  {
    hide LastSlash;
    var p := h + ['/'] + c;
    assert p[|h|] == '/';
    assert p[|h| + 1..] == c;
  }

  lemma ParentText(cs: Comps)
    requires Named(cs)
    ensures UpText(Shown(cs)) == Shown(Parent(cs))
  {
    hide Shown, LastSlash, Free;
    RootText();
    if |cs| == 0 {
      LastSlashOf("", "");
      assert "" + ['/'] + "" == "/";
    } else {
      ShownLast(cs);
      if |cs| == 1 { LastSlashOf("", cs[0]); assert "" + ['/'] + cs[0] == ['/'] + cs[0]; assert cs[..0] == []; }
      else { LastSlashOf(Shown(cs[..|cs| - 1]), cs[|cs| - 1]); }
    }
  }

  lemma RootText()
    ensures Shown([]) == ['/'] && Free("", '/')
  {
  }

  lemma {:induction false} ShownGrows(cs: Comps, k: nat)
    requires Named(cs) && k < |cs|
    ensures |Shown(cs[..k])| < |Shown(cs)|
    decreases |cs|
  {
    hide Shown;
    var ps := cs[..|cs| - 1];
    ShownLast(cs);
    RootText();
    if k < |cs| - 1 {
      assert ps[..k] == cs[..k];
      ShownGrows(ps, k);
    } else {
      assert cs[..k] == ps;
      if |cs| == 1 { assert cs[..0] == []; }
    }
  }

  lemma ShownDepth(cs: Comps, j: nat, k: nat)
    requires Named(cs) && j <= |cs| && k <= |cs|
    ensures j < k <==> |Shown(cs[..j])| < |Shown(cs[..k])|
  {
    hide Shown;
    if j < k { assert cs[..k][..j] == cs[..j]; ShownGrows(cs[..k], j); }
    if k < j { assert cs[..j][..k] == cs[..k]; ShownGrows(cs[..j], k); }
  }

  // ----- the string test for "lies below" -----

  predicate PrefixOf(p: string, base: string) {
    (|base| == 1 && base[0] == '/') || (base <= p && (|p| == |base| || p[|base|] == '/'))
  }

  /** The text of what follows the first `k` components. */
  function Rest(cs: Comps): string {
    if |cs| == 0 then "" else Shown(cs)
  }

  lemma {:induction false} ShownSplit(cs: Comps, k: nat)
    requires 0 < k <= |cs|
    ensures Shown(cs) == Shown(cs[..k]) + Rest(cs[k..])
    decreases |cs|
  {
    hide Shown;
    if k == |cs| {
      assert cs[..k] == cs;
    } else {
      var n := |cs| - 1;
      var ps, c := cs[..n], cs[n];
      ShownLast(cs);
      ShownSplit(ps, k);
      assert ps[..k] == cs[..k];
      assert cs[k..] == ps[k..] + [c];
      ShownAppend(ps[k..], c);
      if k == n {
        assert ps[k..] == [];
        Nothing(Shown(ps), c);
      } else {
        Regroup(Shown(cs[..k]), Shown(ps[k..]), c);
      }
    }
  }

  lemma Nothing(a: string, c: string)
    ensures a + "" == a && a + ['/'] + c == a + (['/'] + c)
  {
  }

  lemma Regroup(a: string, b: string, c: string)
    ensures (a + b) + ['/'] + c == a + (b + ['/'] + c)
  {
  }

  lemma {:induction false} PrefixSpells(cs: Comps, b: string) returns (k: nat)
    requires Named(cs) && PrefixOf(Shown(cs), b) && |b| > 0 && !(|b| == 1 && b[0] == '/')
    ensures 0 < k <= |cs| && b == Shown(cs[..k])
    decreases |cs|
  {
    var p := Shown(cs);
    hide Shown, Free;
    RootText();
    if |b| == |p| {
      assert b == p && cs[..|cs|] == cs;
      k := |cs|;
    } else {
      var ps, c := cs[..|cs| - 1], cs[|cs| - 1];
      ShownLast(cs);
      var h := if |cs| == 1 then "" else Shown(ps);
      assert p == h + ['/'] + c;
      InLast(h, c, b);
      assert b <= h by { assert forall i :: 0 <= i < |h| ==> p[i] == h[i]; }
      assert |b| < |h| ==> h[|b|] == p[|b|];
      k := PrefixSpells(ps, b);
      assert ps[..k] == cs[..k];
    }
  }

  lemma InLast(h: string, c: string, b: string)
    requires Free(c, '/') && b <= h + ['/'] + c && |b| < |h| + 1 + |c| && (h + ['/'] + c)[|b|] == '/'
    ensures |b| <= |h|
  {
    var p := h + ['/'] + c;
    assert forall i :: |h| < i < |p| ==> p[i] == c[i - |h| - 1];
  }

  lemma SpelledIsPrefix(cs: Comps, k: nat)
    requires 0 < k <= |cs|
    ensures PrefixOf(Shown(cs), Shown(cs[..k])) && Shown(cs)[|Shown(cs[..k])|..] == Rest(cs[k..])
  {
    ShownSplit(cs, k);
  }

  lemma {:induction false} SpelledDepthIs(text: string, cs: Comps, k: nat)
    requires Named(cs) && 0 < k <= |cs| && text == Shown(cs[..k])
    ensures SpelledDepth(text, cs) == k
    decreases |cs|
  {
    if k == |cs| {
      assert cs[..k] == cs;
    } else {
      ShownGrows(cs, k);
      assert cs[..|cs| - 1][..k] == cs[..k];
      hide Shown;
      SpelledDepthIs(text, cs[..|cs| - 1], k);
    }
  }

  lemma {:induction false} SpelledDepthSpells(text: string, cs: Comps)
    requires SpelledDepth(text, cs) > 0
    ensures text == Shown(cs[..SpelledDepth(text, cs)])
    decreases |cs|
  {
    hide Shown;
    if text == Shown(cs) {
      assert cs[..|cs|] == cs;
    } else {
      var ps := cs[..|cs| - 1];
      SpelledDepthSpells(text, ps);
      assert ps[..SpelledDepth(text, ps)] == cs[..SpelledDepth(text, ps)];
    }
  }

  lemma SpelledIsLong(cs: Comps, k: nat)
    requires Named(cs) && 0 < k <= |cs|
    ensures |Shown(cs[..k])| > 1
    ensures k > 1 ==> !Free(Shown(cs[..k])[1..], '/')
  {
    hide Shown;
    RootText();
    ShownDepth(cs, 0, k);
    assert cs[..0] == [];
    if k > 1 {
      ShownDepth(cs, 0, k - 1);
      ShownLast(cs[..k]);
      assert cs[..k][..k - 1] == cs[..k - 1];
      var h := |Shown(cs[..k - 1])|;
      assert Shown(cs[..k])[1..][h - 1] == '/';
    }
  }

  /** The string test holds of exactly the texts that spell an ancestor, the root, or nothing, and
      what follows the text spells the components below it. */
  lemma PrefixMeans(cs: Comps, b: string)
    requires Named(cs)
    ensures PrefixOf(Shown(cs), b) <==> Above(b, cs)
    ensures Above(b, cs) && SpelledDepth(b, cs) > 0 ==>
      b <= Shown(cs) && Shown(cs)[|b|..] == Rest(cs[SpelledDepth(b, cs)..])
    ensures |b| == 0 || (|b| == 1 && b[0] == '/') ==> SpelledDepth(b, cs) == 0
  {
    hide Shown;
    if |b| == 0 || (|b| == 1 && b[0] == '/') {
      if SpelledDepth(b, cs) > 0 {
        SpelledIsLong(cs, SpelledDepth(b, cs));
        SpelledDepthSpells(b, cs);
      }
    } else {
      if PrefixOf(Shown(cs), b) {
        var k := PrefixSpells(cs, b);
        SpelledDepthIs(b, cs, k);
      }
      if SpelledDepth(b, cs) > 0 {
        SpelledDepthSpells(b, cs);
        SpelledIsPrefix(cs, SpelledDepth(b, cs));
      }
    }
  }

  lemma FirstComponent(cs: Comps, x: string)
    requires Named(cs) && |x| > 0 && Free(x, '/')
    ensures PrefixOf(Shown(cs), ['/'] + x) <==> |cs| > 0 && cs[0] == x
  {
    hide Shown;
    var b := ['/'] + x;
    assert b[1..] == x;
    PrefixMeans(cs, b);
    var d := SpelledDepth(b, cs);
    if d > 0 {
      SpelledIsLong(cs, d);
      SpelledDepthSpells(b, cs);
      ShownLast(cs[..1]);
      assert cs[..1] == [cs[0]];
    }
    if |cs| > 0 && cs[0] == x {
      ShownLast(cs[..1]);
      assert cs[..1] == [x];
      SpelledDepthIs(b, cs, 1);
    }
  }

  // ----- joining -----

  function SkipSlashes(s: string): string {
    if |s| > 0 && s[0] == '/' then SkipSlashes(s[1..]) else s
  }

  function JoinText(base: string, suffix: string): string {
    var t := SkipSlashes(suffix);
    if |t| == 0 then base else base + (if |base| == 1 && base[0] == '/' then "" else "/") + t
  }

  lemma GlueStarts(cs: Comps)
    requires Named(cs) && |cs| > 0
    ensures |Glue(cs, '/')| > 0 && Glue(cs, '/')[0] != '/'
  {
    assert |cs[0]| > 0 && cs[0][0] != '/';
    if |cs| > 1 { assert Glue(cs, '/')[0] == cs[0][0]; }
  }

  lemma SkipOne(t: string)
    requires |t| > 0 ==> t[0] != '/'
    ensures SkipSlashes(t) == t && SkipSlashes(['/'] + t) == t
  {
    assert (['/'] + t)[1..] == t;
  }

  lemma JoinIsJoined(base: string, cs: Comps)
    requires Named(cs)
    ensures JoinText(base, Rest(cs)) == Joined(base, cs)
    ensures JoinText(base, Shown(cs)) == Joined(base, cs)
    ensures JoinText(base, Shown(cs)[1..]) == Joined(base, cs)
  {
    if |cs| > 0 { GlueStarts(cs); }
    hide SkipSlashes, Glue;
    SkipOne(Glue(cs, '/'));
    SkipOne("");
    assert |cs| == 0 ==> Glue(cs, '/') == "";
    assert Shown(cs)[1..] == Glue(cs, '/');
  }

}
