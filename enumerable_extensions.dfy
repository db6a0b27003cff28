/**
 * Unify's sequence helpers: Batch, which groups items by index / maxItems, and ToOxfordComma,
 * which lists strings in English with a serial comma.
 */
module EnumerableExtensions {
  import opened Wrappers
  import Text

  /** The C# quotient of two ints: truncated toward zero, so its size is |a| / |b| and its sign
      the product of the signs. */
  function TruncatedDiv(a: int, b: int): int
    requires b != 0
  {
    if (a < 0) != (b < 0) then -(Abs(a) / Abs(b)) else Abs(a) / Abs(b)
  }

  function Abs(n: int): nat {
    if n < 0 then -n else n
  }

  /** Consecutive slices of k items, the last possibly shorter. */
  function Chunks<T>(items: seq<T>, k: nat): (r: seq<seq<T>>)
    requires k > 0
    decreases |items|
  {
    if items == [] then []
    else if |items| <= k then [items]
    else [items[..k]] + Chunks(items[k..], k)
  }

  /**
   * Batch: items grouped by the key index / maxItems in order of first appearance. For a
   * negative maxItems the keys run 0, -1, -2, ... and the groups are those of |maxItems|. A zero
   * maxItems divides by zero as soon as the first item is grouped; with no items the key is never
   * computed.
   */
  function Batch<T>(items: seq<T>, maxItems: int): Result<seq<seq<T>>> {
    if maxItems == 0 then
      if items == [] then Ok([]) else Err(DivideByZero)
    else Ok(Chunks(items, Abs(maxItems)))
  }

  function Flatten<T>(batches: seq<seq<T>>): seq<T> {
    if batches == [] then [] else batches[0] + Flatten(batches[1..])
  }

  /** The batches put back together are the items, in order. */
  lemma {:induction false} ChunksFlatten<T>(items: seq<T>, k: nat)
    requires k > 0
    ensures Flatten(Chunks(items, k)) == items
    decreases |items|
  {
    if items != [] && |items| > k {
      ChunksFlatten(items[k..], k);
      assert items[..k] + items[k..] == items;
    } else if items != [] {
      assert items + [] == items;
    }
  }

  /** Every batch is non-empty and holds at most k items, all but the last exactly k, and there
      are ceil(n / k) of them: the fewest batches of k that hold n items. */
  lemma {:induction false} ChunksSizes<T>(items: seq<T>, k: nat)
    requires k > 0
    ensures var r := Chunks(items, k);
      && (items == [] <==> r == [])
      && (items != [] ==> (|r| - 1) * k < |items| <= |r| * k)
      && (forall j :: 0 <= j < |r| ==> 0 < |r[j]| <= k)
      && (forall j :: 0 <= j < |r| - 1 ==> |r[j]| == k)
    decreases |items|
  {
    if items != [] && |items| > k {
      var rest := Chunks(items[k..], k);
      ChunksSizes(items[k..], k);
      var r := Chunks(items, k);
      assert |r| == |rest| + 1;
      MulSucc(|rest|, k);
      MulSucc(|rest| - 1, k);
      assert forall j :: 1 <= j < |r| ==> r[j] == rest[j - 1];
    }
  }

  lemma MulSucc(a: int, k: int)
    ensures (a + 1) * k == a * k + k
  {
  }

  /** The item at index j * k + p lands in batch j at position p. */
  lemma {:induction false} ChunksPosition<T>(items: seq<T>, k: nat, j: nat, p: nat)
    requires k > 0 && p < k && j * k + p < |items|
    ensures var r := Chunks(items, k);
      j < |r| && p < |r[j]| && r[j][p] == items[j * k + p]
    decreases j
  {
    if j > 0 {
      assert j * k == (j - 1) * k + k;
      ChunksPosition(items[k..], k, j - 1, p);
    }
  }

  /** What Batch promises: it fails only for maxItems 0 with items present; otherwise its batches
      put back together are the items, each batch is non-empty with at most |maxItems| items, all
      but the last exactly that many, and there are ceil(n / |maxItems|) batches. */
  lemma BatchSpec<T>(items: seq<T>, maxItems: int)
    ensures Batch(items, maxItems).Err? <==> maxItems == 0 && items != []
    ensures Batch(items, maxItems).Err? ==> Batch(items, maxItems).error == DivideByZero
    ensures Batch(items, maxItems).Ok? ==>
      var r := Batch(items, maxItems).value;
      && Flatten(r) == items
      && (forall j :: 0 <= j < |r| ==> 0 < |r[j]| && |r[j]| <= Abs(maxItems))
      && (forall j :: 0 <= j < |r| - 1 ==> |r[j]| == Abs(maxItems))
      && (items != [] ==> (|r| - 1) * Abs(maxItems) < |items| <= |r| * Abs(maxItems))
  {
    if maxItems != 0 {
      ChunksFlatten(items, Abs(maxItems));
      ChunksSizes(items, Abs(maxItems));
    }
  }

  /** Batch groups by the key index / maxItems of the source: the item at index i sits in the
      batch numbered by the size of its key, at position i % |maxItems|. */
  lemma BatchGroupsByKey<T>(items: seq<T>, maxItems: int, i: nat)
    requires maxItems != 0 && i < |items|
    ensures var r := Batch(items, maxItems).value; var key := Abs(TruncatedDiv(i, maxItems));
      key < |r| && i % Abs(maxItems) < |r[key]| && r[key][i % Abs(maxItems)] == items[i]
  {
    var k := Abs(maxItems);
    KeySize(i, maxItems);
    DivMod(i, k);
    ChunksPosition(items, k, i / k, i % k);
  }

  lemma KeySize(i: nat, maxItems: int)
    requires maxItems != 0
    ensures Abs(TruncatedDiv(i, maxItems)) == i / Abs(maxItems)
  {
  }

  lemma DivMod(i: nat, k: nat)
    requires k > 0
    ensures (i / k) * k + i % k == i && i % k < k
  {
  }

  /**
   * ToOxfordComma: null gives ""; up to two items are joined by " and "; from three on, all but
   * the last are joined by ", " and the last follows ", and ".
   */
  function ToOxfordComma(items: Option<seq<string>>): string {
    match items
    case None => ""
    case Some(xs) =>
      if |xs| >= 3 then Text.Join(", ", xs[..|xs| - 1]) + ", and " + xs[|xs| - 1]
      else Text.Join(" and ", xs)
  }

  /** An independent reading of the serial-comma list: "a", "a and b", and for longer lists each
      item followed by ", " until the last pair, which is joined by ", and ". */
  function Listing(xs: seq<string>): string {
    if |xs| == 0 then ""
    else if |xs| == 1 then xs[0]
    else if |xs| == 2 then xs[0] + " and " + xs[1]
    else SerialTail(xs)
  }

  function SerialTail(xs: seq<string>): string
    requires |xs| >= 2
  {
    if |xs| == 2 then xs[0] + ", and " + xs[1]
    else xs[0] + ", " + SerialTail(xs[1..])
  }

  /** ToOxfordComma agrees with the reading above on every list. */
  lemma OxfordCommaListing(xs: seq<string>)
    ensures ToOxfordComma(Some(xs)) == Listing(xs)
  {
    if |xs| >= 3 {
      SerialTailJoin(xs);
    } else if |xs| == 2 {
      assert Text.Join(" and ", xs) == xs[0] + " and " + Text.Join(" and ", xs[1..]);
    }
  }

  lemma {:induction false} SerialTailJoin(xs: seq<string>)
    requires |xs| >= 2
    ensures SerialTail(xs) == Text.Join(", ", xs[..|xs| - 1]) + ", and " + xs[|xs| - 1]
  {
    if |xs| > 2 {
      SerialTailJoin(xs[1..]);
      var init := xs[..|xs| - 1];
      assert init[1..] == xs[1..][..|xs| - 2];
      assert Text.Join(", ", init) == init[0] + ", " + Text.Join(", ", init[1..]);
    }
  }

  /** The three forms: null gives "", two items read "a and b", and three or more end with
      ", and " before the last item. */
  lemma OxfordCommaForms(xs: seq<string>)
    ensures ToOxfordComma(None) == ""
    ensures |xs| == 2 ==> ToOxfordComma(Some(xs)) == xs[0] + " and " + xs[1]
    ensures |xs| >= 3 ==> var r := ToOxfordComma(Some(xs)); var tail := ", and " + xs[|xs| - 1];
      |tail| <= |r| && r[|r| - |tail|..] == tail
  {
    if |xs| == 2 {
      assert Text.Join(" and ", xs) == xs[0] + " and " + Text.Join(" and ", xs[1..]);
    }
  }
}
