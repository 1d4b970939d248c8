/** The queue of deferred updates of a surface. */
module Queues {
  import opened Rects

  const QUEUE_SIZE := 256

  datatype Entry = Entry(flushed: bool, rect: Rect)

  /** __guac_common_surface_bitmap_rect_compare: top to bottom, left to right, wider first,
      shorter first. */
  function Compare(a: Rect, b: Rect): int {
    if a.y != b.y then a.y - b.y
    else if a.x != b.x then a.x - b.x
    else if a.width != b.width then b.width - a.width
    else a.height - b.height
  }

  ghost predicate Ordered(s: seq<Entry>) {
    forall i, j :: 0 <= i < j < |s| ==> Compare(s[i].rect, s[j].rect) <= 0
  }

  function Insert(e: Entry, s: seq<Entry>): seq<Entry> {
    if s == [] then [e]
    else if Compare(e.rect, s[0].rect) <= 0 then [e] + s
    else [s[0]] + Insert(e, s[1..])
  }

  /** What qsort makes of the queue: some ordered permutation of it. */
  function Sort(s: seq<Entry>): seq<Entry> {
    if s == [] then [] else Insert(s[0], Sort(s[1..]))
  }

  lemma {:induction false} InsertPermutes(e: Entry, s: seq<Entry>)
    ensures multiset(Insert(e, s)) == multiset(s) + multiset{e}
    ensures |Insert(e, s)| == |s| + 1
  {
    if s != [] && Compare(e.rect, s[0].rect) > 0 {
      InsertPermutes(e, s[1..]);
      assert s == [s[0]] + s[1..];
    }
  }

  lemma {:induction false} InsertOrdered(e: Entry, s: seq<Entry>)
    requires Ordered(s)
    ensures Ordered(Insert(e, s))
  {
    if s == [] {
    } else if Compare(e.rect, s[0].rect) <= 0 {
    } else {
      InsertOrdered(e, s[1..]);
      var r := Insert(e, s[1..]);
      forall k | 0 <= k < |r| ensures Compare(s[0].rect, r[k].rect) <= 0 {
        InsertPermutes(e, s[1..]);
        assert r[k] in multiset(r);
        assert r[k] in s[1..] || r[k] == e;
      }
    }
  }

  lemma {:induction false} SortPermutes(s: seq<Entry>)
    ensures Ordered(Sort(s)) && multiset(Sort(s)) == multiset(s) && |Sort(s)| == |s|
  {
    if s != [] {
      SortPermutes(s[1..]);
      InsertPermutes(s[0], Sort(s[1..]));
      InsertOrdered(s[0], Sort(s[1..]));
      assert s == [s[0]] + s[1..];
    }
  }

  /** Pixel (x, y) is in an entry that has not been flushed. */
  ghost predicate Awaits(s: seq<Entry>, x: int, y: int) {
    exists k :: 0 <= k < |s| && !s[k].flushed && s[k].rect.Has(x, y)
  }

  lemma AwaitsPermuted(s: seq<Entry>, t: seq<Entry>, x: int, y: int)
    requires multiset(s) == multiset(t) && Awaits(s, x, y)
    ensures Awaits(t, x, y)
  {
    var k :| 0 <= k < |s| && !s[k].flushed && s[k].rect.Has(x, y);
    assert s[k] in multiset(s);
    assert s[k] in multiset(t);
  }

  lemma AwaitsAppend(s: seq<Entry>, e: Entry, x: int, y: int)
    ensures Awaits(s + [e], x, y) <==> Awaits(s, x, y) || (!e.flushed && e.rect.Has(x, y))
  {
    if Awaits(s, x, y) {
      var k :| 0 <= k < |s| && !s[k].flushed && s[k].rect.Has(x, y);
      assert (s + [e])[k] == s[k];
    }
    if !e.flushed && e.rect.Has(x, y) {
      assert (s + [e])[|s|] == e;
    }
  }

  /** If entry j, clipped, is not combined with any other, no other pixels are dirty or awaiting. */
  lemma CombinedAlone(s: seq<Entry>, t: seq<Entry>, j: int, was: bool, dirty: bool, wasRect: Rect, dirtyRect: Rect)
    requires 0 <= j < |s| == |t| && t == s[j := t[j]] && !s[j].flushed
    requires forall x, y :: t[j].rect.Has(x, y) ==> s[j].rect.Has(x, y)
    requires if was then dirty && dirtyRect == wasRect else dirty ==> dirtyRect == t[j].rect
    ensures forall x, y :: (dirty && dirtyRect.Has(x, y)) || Awaits(t, x, y) ==>
              (was && wasRect.Has(x, y)) || Awaits(s, x, y)
  {
    forall x, y | (dirty && dirtyRect.Has(x, y)) || Awaits(t, x, y)
      ensures (was && wasRect.Has(x, y)) || Awaits(s, x, y)
    {
      if Awaits(t, x, y) {
        var k :| 0 <= k < |t| && !t[k].flushed && t[k].rect.Has(x, y);
        assert !s[k].flushed && s[k].rect.Has(x, y);
      }
      assert dirtyRect == t[j].rect && dirtyRect.Has(x, y) ==> !s[j].flushed && s[j].rect.Has(x, y);
    }
  }
}
