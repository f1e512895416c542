/** The batch runner of the scraper: job links are cut into contiguous batches of `split`
    links each and every link is handed, batch by batch, to the detail extractor, which may
    fail. The extractor, a browser visit in the program, is a function parameter here. */
module Batching {
  import opened Wrappers

  /** Concatenation of a sequence of batches, in order. */
  function Flatten<L>(batches: seq<seq<L>>): seq<L>
  {
    if |batches| == 0 then [] else Flatten(batches[..|batches| - 1]) + batches[|batches| - 1]
  }

  /** Adding a batch at the end adds its links at the end. */
  lemma FlattenSnoc<L>(batches: seq<seq<L>>, batch: seq<L>)
    ensures Flatten(batches + [batch]) == Flatten(batches) + batch
  {
    assert (batches + [batch])[..|batches|] == batches;
  }

  lemma {:induction false} FlattenAppend<L>(a: seq<seq<L>>, b: seq<seq<L>>)
    ensures Flatten(a + b) == Flatten(a) + Flatten(b)
    decreases |b|
  {
    if |b| == 0 {
      assert a + b == a;
    } else {
      var init := b[..|b| - 1];
      assert a + b == (a + init) + [b[|b| - 1]];
      assert b == init + [b[|b| - 1]];
      FlattenSnoc(a + init, b[|b| - 1]);
      FlattenSnoc(init, b[|b| - 1]);
      FlattenAppend(a, init);
    }
  }

  /** The slices `links[i:i+split]` for `i` in `range(0, len(links), split)`, for a positive step:
      together they are the links, every batch but the last is full, and the last holds between
      one and `split` links. */
  function Chunks<L>(links: seq<L>, split: nat): (r: seq<seq<L>>)
    requires split >= 1
    ensures Flatten(r) == links
    ensures forall k :: 0 <= k < |r| - 1 ==> |r[k]| == split
    ensures |r| > 0 ==> 1 <= |r[|r| - 1]| <= split
    ensures |links| > 0 <==> |r| > 0
    decreases |links|
  {
    if |links| == 0 then []
    else if |links| <= split then
      assert Flatten([links]) == Flatten([]) + links;
      [links]
    else
      var rest := Chunks(links[split..], split);
      FlattenAppend([links[..split]], rest);
      assert Flatten([links[..split]]) == links[..split] by {
        assert Flatten([links[..split]]) == Flatten([]) + links[..split];
      }
      assert links == links[..split] + links[split..];
      [links[..split]] + rest
  }

  /** The number of batches, as a pair of bounds: `|r| - 1` full batches fall short of the links
      and `|r|` of them would hold them all. */
  lemma {:induction false} ChunkCountBounds<L>(links: seq<L>, split: nat)
    requires split >= 1
    ensures |links| > 0 ==> (|Chunks(links, split)| - 1) * split < |links| <= |Chunks(links, split)| * split
  {
    if |links| > split {
      var q := |Chunks(links[split..], split)|;
      ChunkCountBounds(links[split..], split);
      assert |Chunks(links, split)| == q + 1;
      CountStep(q, split, |links|);
    }
  }

  /** One more full batch in front moves both bounds by `split`. */
  lemma CountStep(q: int, split: nat, n: int)
    requires (q - 1) * split < n - split <= q * split
    ensures (q + 1 - 1) * split < n <= (q + 1) * split
  {
    assert (q + 1) * split == q * split + split;
    assert (q - 1) * split + split == q * split;
  }

  /** `q` satisfying the two bounds is the ceiling of `n / split`. */
  lemma CeilDiv(n: nat, split: nat, q: int)
    requires split >= 1
    requires (q - 1) * split < n <= q * split
    ensures q == (n + split - 1) / split
  {
    var d := (n + split - 1) / split;
    assert d * split <= n + split - 1 < (d + 1) * split;
    if d < q {
      MulMonotone(d + 1, q, split);
      assert false;
    }
    if d > q {
      MulMonotone(q + 1, d, split);
      assert false;
    }
  }

  lemma MulMonotone(a: int, b: int, split: nat)
    requires a <= b
    ensures a * split <= b * split
  {
    assert b * split == a * split + (b - a) * split;
  }

  /** There are ceil(n / split) batches. */
  lemma ChunkCount<L>(links: seq<L>, split: nat)
    requires split >= 1
    ensures |Chunks(links, split)| == (|links| + split - 1) / split
  {
    ChunkCountBounds(links, split);
    if |links| > 0 {
      CeilDiv(|links|, split, |Chunks(links, split)|);
    } else {
      assert (split - 1) / split == 0;
    }
  }

  /** Batch `k` is exactly the slice the comprehension builds: it starts at `k * split` and stops
      at `(k + 1) * split` or at the end of the links, whichever comes first. */
  lemma {:induction false} ChunkAt<L>(links: seq<L>, split: nat, k: nat)
    requires split >= 1
    requires k < |Chunks(links, split)|
    ensures k * split < |links|
    ensures Chunks(links, split)[k] == links[k * split..Min((k + 1) * split, |links|)]
    decreases |links|
  {
    if k == 0 {
      ChunkFirst(links, split);
    } else {
      var rest := links[split..];
      assert |links| > split;
      assert Chunks(links, split) == [links[..split]] + Chunks(rest, split);
      ChunkAt(rest, split, k - 1);
      ChunkLater(links, split, k, Chunks(rest, split)[k - 1]);
      assert Chunks(links, split)[k] == Chunks(rest, split)[k - 1];
    }
  }

  /** The first batch: the first `split` links, or all of them when there are fewer. */
  lemma ChunkFirst<L>(links: seq<L>, split: nat)
    requires split >= 1 && |links| > 0
    ensures Chunks(links, split)[0] == links[0 * split..Min((0 + 1) * split, |links|)]
  {
    assert 0 * split == 0 && (0 + 1) * split == split;
    if |links| <= split {
      assert links[..|links|] == links;
    }
  }

  /** Batch `k - 1` of the links after the first batch is batch `k` of all of them. */
  lemma ChunkLater<L>(links: seq<L>, split: nat, k: nat, batch: seq<L>)
    requires split >= 1 && k >= 1 && |links| > split
    requires (k - 1) * split < |links| - split
    requires batch == links[split..][(k - 1) * split..Min(k * split, |links| - split)]
    ensures k * split < |links|
    ensures batch == links[k * split..Min((k + 1) * split, |links|)]
  {
    ChunkArith(k, split, |links|);
    var lo := k * split - split;
    var hi := Min(k * split, |links| - split);
    SliceShift(links, split, lo, hi);
  }

  lemma ChunkArith(k: nat, split: nat, n: nat)
    requires k >= 1 && split >= 1 && n >= split
    ensures (k - 1) * split + split == k * split
    ensures k * split >= split
    ensures Min((k + 1) * split, n) == Min(k * split, n - split) + split
  {
    MulMonotone(1, k, split);
    assert (k + 1) * split == k * split + split;
  }

  lemma SliceShift<L>(links: seq<L>, d: nat, lo: nat, hi: nat)
    requires d <= |links| && lo <= hi <= |links| - d
    ensures links[d..][lo..hi] == links[lo + d..hi + d]
  {
  }

  function Min(a: int, b: int): int
  {
    if a <= b then a else b
  }

  /** `split_extract_running(links, split)`: `None` is the `ValueError` that `range` raises for a
      step of 0; a negative step gives an empty range and so no batches. */
  function SplitExtractRunning<L>(links: seq<L>, split: int): (r: Option<seq<seq<L>>>)
    ensures r.None? <==> split == 0
    ensures r.Some? ==> Flatten(r.value) == if split > 0 then links else []
    ensures split < 0 ==> r == Some([])
    ensures split > 0 ==> r == Some(Chunks(links, split))
  {
    if split == 0 then None
    else if split < 0 then assert Flatten<L>([]) == []; Some([])
    else Some(Chunks(links, split))
  }

  /** An empty link list gives no batches. */
  lemma NoLinksNoBatches<L>(split: nat)
    requires split >= 1
    ensures Chunks<L>([], split) == []
  {
  }

  /** A batch size of at least the number of links gives one batch holding every link (a
      larger one is the case the program prints a warning for). */
  lemma OversizedSplit<L>(links: seq<L>, split: nat)
    requires split >= |links| >= 1
    ensures Chunks(links, split) == [links]
  {
  }

  /** The non-null extractor results for `links`, in link order: what the batch loop collects. */
  function Successes<L, R>(extract: L -> Option<R>, links: seq<L>): seq<R>
  {
    if |links| == 0 then []
    else
      var rest := Successes(extract, links[..|links| - 1]);
      match extract(links[|links| - 1])
      case Some(d) => rest + [d]
      case None => rest
  }

  /** One more link adds its record, when the extractor returns one. */
  lemma SuccessesSnoc<L, R>(extract: L -> Option<R>, links: seq<L>, link: L)
    ensures Successes(extract, links + [link])
      == Successes(extract, links) + (if extract(link).Some? then [extract(link).value] else [])
  {
    assert (links + [link])[..|links|] == links;
  }

  /** The records of earlier links come before the records of later ones: collecting over two
      consecutive runs of links is collecting over each and concatenating. */
  lemma {:induction false} SuccessesAppend<L, R>(extract: L -> Option<R>, a: seq<L>, b: seq<L>)
    ensures Successes(extract, a + b) == Successes(extract, a) + Successes(extract, b)
    decreases |b|
  {
    if |b| == 0 {
      assert a + b == a;
    } else {
      var init := b[..|b| - 1];
      var last := b[|b| - 1];
      assert a + b == (a + init) + [last];
      assert b == init + [last];
      SuccessesSnoc(extract, a + init, last);
      SuccessesSnoc(extract, init, last);
      SuccessesAppend(extract, a, init);
    }
  }

  /** At most one record per link. */
  lemma {:induction false} SuccessesBound<L, R>(extract: L -> Option<R>, links: seq<L>)
    ensures |Successes(extract, links)| <= |links|
  {
    if |links| > 0 {
      SuccessesBound(extract, links[..|links| - 1]);
    }
  }

  /** A record is collected exactly when some link's extraction returned it. */
  lemma {:induction false} SuccessesMembers<L, R>(extract: L -> Option<R>, links: seq<L>, d: R)
    ensures d in Successes(extract, links) <==> exists i :: 0 <= i < |links| && extract(links[i]) == Some(d)
  {
    if |links| > 0 {
      var init := links[..|links| - 1];
      SuccessesMembers(extract, init, d);
      assert forall i :: 0 <= i < |init| ==> init[i] == links[i];
      if exists i :: 0 <= i < |links| && extract(links[i]) == Some(d) {
        var i :| 0 <= i < |links| && extract(links[i]) == Some(d);
        if i < |init| {
          assert extract(init[i]) == Some(d);
        }
      }
    }
  }

  /** `extract_all_job_details(links, browser, split)`: every batch in turn, every link of the
      batch in turn, keeping the records the extractor returns. `None` is the `ValueError` of a
      zero batch size, which the program does not catch. */
  method ExtractAllJobDetails<L, R>(links: seq<L>, extract: L -> Option<R>, split: int)
    returns (jobs: Option<seq<R>>)
    ensures jobs.None? <==> split == 0
    ensures split > 0 ==> jobs == Some(Successes(extract, links))
    ensures split < 0 ==> jobs == Some([])
  {
    var splitted := SplitExtractRunning(links, split);
    if splitted.None? {
      return None;
    }
    var batches := splitted.value;
    var acc: seq<R> := [];
    var i := 0;
    while i < |batches|
      invariant 0 <= i <= |batches|
      invariant acc == Successes(extract, Flatten(batches[..i]))
    {
      var batch := batches[i];
      ghost var before := Flatten(batches[..i]);
      var j := 0;
      assert before + batch[..0] == before;
      while j < |batch|
        invariant 0 <= j <= |batch|
        invariant acc == Successes(extract, before + batch[..j])
      {
        var details := extract(batch[j]);
        SuccessesSnoc(extract, before + batch[..j], batch[j]);
        assert before + batch[..j + 1] == (before + batch[..j]) + [batch[j]];
        if details.Some? {
          acc := acc + [details.value];
        }
        j := j + 1;
      }
      assert batch[..j] == batch;
      assert batches[..i + 1] == batches[..i] + [batch];
      FlattenSnoc(batches[..i], batch);
      i := i + 1;
    }
    assert batches[..i] == batches;
    jobs := Some(acc);
  }

  /** Three detail pages where the second times out give exactly the first and third records,
      in that order. */
  lemma MiddleTimeout<L, R>(extract: L -> Option<R>, l1: L, l2: L, l3: L, d1: R, d3: R)
    requires extract(l1) == Some(d1) && extract(l2) == None && extract(l3) == Some(d3)
    ensures Successes(extract, [l1, l2, l3]) == [d1, d3]
  {
    SuccessesSnoc(extract, [], l1);
    assert [] + [l1] == [l1];
    SuccessesSnoc(extract, [l1], l2);
    assert [l1] + [l2] == [l1, l2];
    SuccessesSnoc(extract, [l1, l2], l3);
    assert [l1, l2] + [l3] == [l1, l2, l3];
  }
}
