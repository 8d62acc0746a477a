/**
 The shortcut of the dispatch loop that does not try the other slash form of a path when no route
 ends in a slash: when it is invisible, and when it is not.
 */
module TrailingSkip {
  import opened Base
  import opened Segments
  import opened Paths
  import opened Allow
  import opened Table
  import opened Serve
  import opened Dispatch

  /** The same table with the shortcut disabled; the flag has no other use. */
  function Unskipped(t: RouteTable): RouteTable {
    t.(hasTrailing := true)
  }

  lemma UnskippedServes(t: RouteTable, m: string, matchPath: string, raw: string)
    requires |raw| == |matchPath|
    ensures ServeInTable(Unskipped(t), m, matchPath, raw) == ServeInTable(t, m, matchPath, raw)
  {
  }

  lemma UnskippedAllows(t: RouteTable, path: string)
    ensures AllowedInTable(Unskipped(t), path) == AllowedInTable(t, path)
  {
    var u := Unskipped(t);
    assert Searched(u) == Searched(t) && TrieHits(u, path) == TrieHits(t, path);
    assert Found(u, path) == Found(t, path);
  }

  lemma SlashForm(p: string)
    ensures HasControl(p + "/") <==> HasControl(p)
    ensures Parts(p + "/", 0) == Parts(p, 0)
  {
    TrailingSlashIgnored(p, 0);
    var q := p + "/";
    assert forall i | 0 <= i < |p| :: q[i] == p[i];
    assert q[|p|] == '/';
  }

  /** Without routes ending in a slash, the form with the slash has no static route. */
  lemma NoStaticTwin(t: RouteTable, m: string, p: string)
    requires TableOk(t) && !t.hasTrailing && p != ""
    ensures IndexHit(t, m, p + "/").None?
  {
    assert IndexHit(t, m, p + "/") == TrieHit(t, m, p + "/");
    assert !StoresTrailing(t, m);
  }

  /** So everything served at that form is served without the slash too, through a parameter route. */
  lemma TwinServesLess(t: RouteTable, m: string, p: string, raw: string)
    requires TableOk(t) && !t.hasTrailing && p != "" && |raw| == |p|
    requires ServeMethod(t, m, p + "/", raw + "/").Some?
    ensures ServeMethod(t, m, p, raw).Some? && t.anyParams
  {
    NoStaticTwin(t, m, p);
    SlashForm(p);
    assert HasParams(t, m);
    SegmentedPath(p, raw);
    SegmentedPath(p + "/", raw + "/");
    LeafIgnoresRaw(t.roots[m], Segment(p, raw), Segment(p + "/", raw + "/"), 0);
  }

  lemma TwinAllowsLess(t: RouteTable, p: string)
    requires TableOk(t) && !t.hasTrailing && p != "" && AllowedSet(t, p + "/") != {}
    ensures AllowedSet(t, p) != {} && t.anyParams
  {
    AllowAgreesWithServing(t, p + "/", p + "/", GET);
    var m :| ServeMethod(t, m, p + "/", p + "/").Some?;
    TwinServesLess(t, m, p, p);
    AllowAgreesWithServing(t, p, p, GET);
  }

  lemma TwinServedLess(t: RouteTable, m: string, p: string, raw: string)
    requires TableOk(t) && !t.hasTrailing && p != "" && |raw| == |p|
    requires ServeInTable(t, m, p, raw).None?
    ensures ServeInTable(t, m, p + "/", raw + "/").None?
  {
    forall m' | ServeMethod(t, m', p + "/", raw + "/").Some?
      ensures ServeMethod(t, m', p, raw).Some?
    {
      TwinServesLess(t, m', p, raw);
    }
  }

  /** The dispatch of a path that the shortcut applies to and that is not served as it stands. */
  lemma SkippedForms(t: RouteTable, ctx: Context)
    requires SkipsAlternate(t.hasTrailing, ctx.MatchPath())
    ensures AlternatePath(ctx.MatchPath()) == Some(ctx.MatchPath() + "/")
    ensures AlternatePath(ctx.paramPath) == Some(ctx.paramPath + "/")
  {
    AlternateFolds(ctx);
  }

  lemma UnskippedAlternate(t: RouteTable, ctx: Context, strict: bool)
    requires TableOk(t) && SkipsAlternate(t.hasTrailing, ctx.MatchPath())
    requires ServeInTable(t, ctx.method_, ctx.MatchPath(), ctx.paramPath).None?
    ensures AlternateSlash(Unskipped(t), ctx, strict) ==
      if strict && AllowedSet(t, ctx.MatchPath() + "/") != {}
        then Some(RedirectTo(ctx.method_, ctx.paramPath + "/", ctx.useRaw))
      else None
  {
    SkippedForms(t, ctx);
    var p, raw := ctx.MatchPath(), ctx.paramPath;
    UnskippedAllows(t, p + "/");
    AllowedIsSet(t, p + "/");
    UnskippedServes(t, ctx.method_, p + "/", raw + "/");
    TwinServedLess(t, ctx.method_, p, raw);
  }

  lemma UnskippedRefusal(t: RouteTable, ctx: Context, strict: bool)
    requires TableOk(t) && SkipsAlternate(t.hasTrailing, ctx.MatchPath())
    ensures NotAllowed(Unskipped(t), ctx, strict) == NotAllowed(t, ctx, strict)
  {
    SkippedForms(t, ctx);
    var p := ctx.MatchPath();
    UnskippedAllows(t, p);
    UnskippedAllows(t, p + "/");
    AllowedIsSet(t, p);
    AllowedIsSet(t, p + "/");
    if AllowedSet(t, p + "/") != {} {
      TwinAllowsLess(t, p);
    }
  }

  /**
   The shortcut changes the outcome of a table exactly when slashes are strict, it applies, the path
   is not served, and a parameter route would have allowed something at the form with the slash.
   */
  lemma SkipChangesExactly(t: RouteTable, ctx: Context, strict: bool)
    requires TableOk(t)
    ensures TryTable(t, ctx, strict) != TryTable(Unskipped(t), ctx, strict)
       <==> && strict && SkipsAlternate(t.hasTrailing, ctx.MatchPath())
            && ServeInTable(t, ctx.method_, ctx.MatchPath(), ctx.paramPath).None?
            && AllowedSet(t, ctx.MatchPath() + "/") != {}
  {
    UnskippedServes(t, ctx.method_, ctx.MatchPath(), ctx.paramPath);
    if SkipsAlternate(t.hasTrailing, ctx.MatchPath()) {
      UnskippedRefusal(t, ctx, strict);
      if ServeInTable(t, ctx.method_, ctx.MatchPath(), ctx.paramPath).None? {
        UnskippedAlternate(t, ctx, strict);
      }
    } else {
      SameWithoutSkip(t, ctx, strict);
    }
  }

  lemma SameWithoutSkip(t: RouteTable, ctx: Context, strict: bool)
    requires !SkipsAlternate(t.hasTrailing, ctx.MatchPath())
    ensures TryTable(t, ctx, strict) == TryTable(Unskipped(t), ctx, strict)
  {
    AlternateFolds(ctx);
    UnskippedServes(t, ctx.method_, ctx.MatchPath(), ctx.paramPath);
    UnskippedAllows(t, ctx.MatchPath());
    var alt := AlternatePath(ctx.MatchPath());
    if alt.Some? {
      UnskippedAllows(t, alt.value);
      UnskippedServes(t, ctx.method_, alt.value, AlternatePath(ctx.paramPath).value);
    }
  }

  /** With StrictSlash off, or without parameter routes, the shortcut is invisible. */
  lemma SkipHarmless(t: RouteTable, ctx: Context, strict: bool)
    requires TableOk(t) && (!strict || !t.anyParams)
    ensures TryTable(t, ctx, strict) == TryTable(Unskipped(t), ctx, strict)
  {
    SkipChangesExactly(t, ctx, strict);
    if SkipsAlternate(t.hasTrailing, ctx.MatchPath()) && AllowedSet(t, ctx.MatchPath() + "/") != {} {
      TwinAllowsLess(t, ctx.MatchPath());
    }
  }
}
