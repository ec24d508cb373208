/** The page source of rise.c: a cursor that only moves up, and the grants it has made. */
module PageSource {
  import opened Machine

  datatype Grant = Grant(base: int, pages: int)

  /** `held`, `granted` and `returned` record the history; the program keeps only the cursor. */
  datatype Source = Source(start: int, end: int, cur: int,
                           held: map<int, int>, granted: seq<Grant>, returned: seq<Grant>)

  /** The guard of liballoc_alloc: a signed comparison of two 32-bit words. */
  predicate Allows(s: Source, pages: int) {
    AsInt(Wrap(Wrap(pages * PAGE) + s.cur)) < AsInt(s.end)
  }

  function Take(s: Source, pages: int): Source {
    s.(cur := Wrap(s.cur + Wrap(pages * PAGE)),
       held := s.held[s.cur := pages],
       granted := s.granted + [Grant(s.cur, pages)])
  }

  /** The grant in unbounded arithmetic. */
  function Grown(s: Source, pages: int): Source {
    s.(cur := s.cur + PAGE * pages,
       held := s.held[s.cur := pages],
       granted := s.granted + [Grant(s.cur, pages)])
  }

  function GiveBack(s: Source, base: int, pages: int): Source {
    s.(held := s.held - {base}, returned := s.returned + [Grant(base, pages)])
  }

  function PageSum(g: seq<Grant>): int {
    if g == [] then 0 else PageSum(g[..|g| - 1]) + g[|g| - 1].pages
  }

  function Fresh(start: int, end: int): Source {
    Source(start, end, start, map[], [], [])
  }

  ghost predicate HeldOk(s: Source) {
    && (forall b | b in s.held ::
          s.start <= b && MIN_PAGES <= s.held[b] && b + PAGE * s.held[b] <= s.cur)
    && (forall b, c | b in s.held && c in s.held && b < c :: b + PAGE * s.held[b] <= c)
  }

  /** Where the grant after grant i begins; the cursor after the last one. */
  function Next(s: Source, i: int): int
    requires 0 <= i < |s.granted|
  {
    if i + 1 < |s.granted| then s.granted[i + 1].base else s.cur
  }

  /** The grants fill the heap from its start to the cursor. */
  ghost predicate Gapless(s: Source) {
    && (s.granted != [] ==> s.granted[0].base == s.start)
    && (s.granted == [] ==> s.cur == s.start)
    && (forall i {:trigger Next(s, i)} | 0 <= i < |s.granted| ::
          Next(s, i) == s.granted[i].base + PAGE * s.granted[i].pages)
  }

  /** Grants are made in address order, each inside the heap. */
  ghost predicate GrantedOk(s: Source) {
    && (forall i | 0 <= i < |s.granted| ::
          s.start <= s.granted[i].base && MIN_PAGES <= s.granted[i].pages
          && s.granted[i].base + PAGE * s.granted[i].pages <= s.cur)
    && (forall i, j | 0 <= i < j < |s.granted| ::
          s.granted[i].base + PAGE * s.granted[i].pages <= s.granted[j].base)
    && s.cur == s.start + PAGE * PageSum(s.granted)
    && (s.granted != [] ==> s.cur < s.end)
  }

  /** What is held or was returned is exactly a grant, and nothing is returned twice. */
  ghost predicate ReturnedOk(s: Source) {
    && (forall b | b in s.held :: Grant(b, s.held[b]) in s.granted)
    && (forall g | g in s.returned :: g in s.granted && g.base !in s.held)
    && (forall i, j | 0 <= i < j < |s.returned| :: s.returned[i].base != s.returned[j].base)
    && PageSum(s.granted) - PageSum(s.returned) == Sum(s.held)
  }

  ghost predicate SourceOk(s: Source) {
    0 < s.start <= s.cur && s.start < s.end < TWO31 && HeldOk(s) && GrantedOk(s) && Gapless(s) && ReturnedOk(s)
  }

  /** Every arithmetic step of a grant stays below 2^31. */
  lemma TakeIsGrown(s: Source, pages: int)
    requires 0 <= s.cur && 0 <= pages && s.cur + PAGE * pages < s.end < TWO31
    ensures Allows(s, pages) && Take(s, pages) == Grown(s, pages)
  {
  }

  /** The guard is passed when the chunk ends below the end of the heap, and also when it ends in the
      upper half of the address space or, wrapped around, below the end. */
  lemma AllowsExactly(s: Source, pages: int)
    requires 0 <= s.cur < TWO31 && 0 < s.end < TWO31 && 0 <= pages <= 0x10_0000
    ensures Allows(s, pages) <==>
      s.cur + 4096 * pages < s.end || 0x8000_0000 <= s.cur + 4096 * pages < 0x1_0000_0000 + s.end
  {
  }

  lemma TakeKeepsHeld(s: Source, pages: int)
    requires HeldOk(s) && MIN_PAGES <= pages && s.start <= s.cur
    ensures HeldOk(Grown(s, pages))
  {
  }

  lemma TakeKeepsGranted(s: Source, pages: int)
    requires GrantedOk(s) && MIN_PAGES <= pages && s.start <= s.cur
    requires s.cur + PAGE * pages < s.end
    ensures GrantedOk(Grown(s, pages))
  {
    var g := s.granted + [Grant(s.cur, pages)];
    assert g[..|g| - 1] == s.granted;
  }

  lemma TakeKeepsGapless(s: Source, pages: int)
    requires Gapless(s)
    ensures Gapless(Grown(s, pages))
  {
    var t := Grown(s, pages);
    forall i | 0 <= i < |t.granted|
      ensures Next(t, i) == t.granted[i].base + PAGE * t.granted[i].pages
    {
      if i < |s.granted| {
        assert Next(t, i) == Next(s, i);
      }
    }
  }

  lemma TakeKeepsReturned(s: Source, pages: int)
    requires HeldOk(s) && GrantedOk(s) && ReturnedOk(s) && MIN_PAGES <= pages
    ensures ReturnedOk(Grown(s, pages))
  {
    var g, h := s.granted + [Grant(s.cur, pages)], s.held[s.cur := pages];
    assert g[..|g| - 1] == s.granted;
    assert s.cur !in s.held;
    SumWith(s.held, s.cur, pages);
    assert g[|s.granted|] == Grant(s.cur, pages);
    forall b | b in h
      ensures Grant(b, h[b]) in g
    {
      if b != s.cur {
        assert Grant(b, s.held[b]) in s.granted;
      }
    }
    forall r | r in s.returned
      ensures r in g && r.base !in h
    {
      assert r in s.granted;
    }
  }

  lemma TakeOk(s: Source, pages: int)
    requires SourceOk(s) && MIN_PAGES <= pages && s.cur + PAGE * pages < s.end
    ensures Allows(s, pages) && Take(s, pages) == Grown(s, pages)
    ensures SourceOk(Take(s, pages))
  {
    TakeIsGrown(s, pages);
    TakeKeepsHeld(s, pages);
    TakeKeepsGranted(s, pages);
    TakeKeepsGapless(s, pages);
    TakeKeepsReturned(s, pages);
  }

  lemma GiveBackKeepsGapless(s: Source, base: int, pages: int)
    requires Gapless(s)
    ensures Gapless(GiveBack(s, base, pages))
  {
    var t := GiveBack(s, base, pages);
    assert forall i {:trigger Next(t, i)} | 0 <= i < |t.granted| :: Next(t, i) == Next(s, i);
  }

  lemma GiveBackKeepsReturned(s: Source, base: int)
    requires ReturnedOk(s) && base in s.held
    ensures ReturnedOk(GiveBack(s, base, s.held[base]))
    ensures Grant(base, s.held[base]) in s.granted && Grant(base, s.held[base]) !in s.returned
  {
    var t, g := GiveBack(s, base, s.held[base]), Grant(base, s.held[base]);
    assert t.returned[..|t.returned| - 1] == s.returned;
    SumWithout(s.held, base);
    assert g in s.granted && g !in s.returned;
    forall r | r in t.returned
      ensures r in t.granted && r.base !in t.held
    {
      assert r == g || r in s.returned;
    }
    forall i, j | 0 <= i < j < |t.returned|
      ensures t.returned[i].base != t.returned[j].base
    {
      assert s.returned[i] in s.returned;
    }
  }

  lemma GiveBackOk(s: Source, base: int)
    requires SourceOk(s) && base in s.held
    ensures SourceOk(GiveBack(s, base, s.held[base]))
    ensures Grant(base, s.held[base]) in s.granted && Grant(base, s.held[base]) !in s.returned
  {
    assert HeldOk(GiveBack(s, base, s.held[base]));
    GiveBackKeepsGapless(s, base, s.held[base]);
    GiveBackKeepsReturned(s, base);
  }

  lemma {:induction false} PagesAtLeast(g: seq<Grant>, n: int)
    requires forall i | 0 <= i < |g| :: n <= g[i].pages
    ensures n * |g| <= PageSum(g)
  {
    if g != [] {
      PagesAtLeast(g[..|g| - 1], n);
    }
  }

  /** What a whole run can obtain, however much of it is given back in between. */
  lemma RunWideBound(s: Source)
    requires SourceOk(s)
    ensures s.granted != [] ==> PAGE * PageSum(s.granted) < s.end - s.start
    ensures s.end - s.start == 1024 * PAGE ==> PageSum(s.granted) <= 1023 && |s.granted| <= 63
  {
    PagesAtLeast(s.granted, MIN_PAGES);
  }
}
