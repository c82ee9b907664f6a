/**
  Regrouping facts about sequence concatenation and slicing. Each only
  guides the solver through a concatenation of named pieces, so that the
  proofs about file names and request bodies never unfold long literals.
 */
module SeqRegroup {
  /** A stem `y a m b dd` splits back into its five pieces, counted from the end. */
  lemma StemParts<T>(y: seq<T>, a: seq<T>, m: seq<T>, b: seq<T>, dd: seq<T>)
    requires |a| == 1 && |b| == 1 && |m| == 2 && |dd| == 2
    ensures var s := y + a + m + b + dd; var k := |s|;
            k >= 6 && s[..k - 6] == y && s[k - 6] == a[0] && s[k - 5..k - 3] == m && s[k - 3] == b[0] && s[k - 2..] == dd
  {
    var s := y + a + m + b + dd;
    var k := |s|;
    assert s[..k - 6] == y;
    assert s[k - 5..k - 3] == m;
    assert s[k - 2..] == dd;
  }

  /** A name splits back into its stem and extension. */
  lemma NameParts<T>(stem: seq<T>, ext: seq<T>)
    ensures (stem + ext)[..|stem|] == stem && (stem + ext)[|stem|..] == ext
  {
  }

  /** Any sequence of six or more elements is the join of the five pieces `StemParts` takes apart. */
  lemma Rejoin<T>(s: seq<T>)
    requires |s| >= 6
    ensures var k := |s|; s == s[..k - 6] + [s[k - 6]] + s[k - 5..k - 3] + [s[k - 3]] + s[k - 2..]
  {
    var k := |s|;
    assert s == s[..k - 6] + s[k - 6..];
    assert s[k - 6..] == [s[k - 6]] + s[k - 5..k - 3] + [s[k - 3]] + s[k - 2..];
  }

  /** The part header regrouped from its three lines into the pieces around the caller-supplied values. */
  lemma Reassociate<T>(d: seq<T>, ds: seq<T>, x: seq<T>, af: seq<T>, y: seq<T>, q: seq<T>, nl: seq<T>, ts: seq<T>, z: seq<T>)
    ensures d + (ds + x + af + y + q + nl) + (ts + z + nl + nl)
         == (d + ds) + x + af + y + (q + nl + ts) + z + (nl + nl)
  {
  }

  /** Four pieces regrouped to the right. */
  lemma Reassociate4<T>(h: seq<T>, x: seq<T>, c: seq<T>, k: seq<T>)
    ensures (h + x + c) + k == h + (x + (c + k))
  {
  }

  /** Eight pieces regrouped to the right. */
  lemma Regroup<T>(o: seq<T>, ef: seq<T>, af: seq<T>, en: seq<T>, an: seq<T>, em: seq<T>, am: seq<T>, c: seq<T>)
    ensures o + ef + af + en + an + em + am + c == o + (ef + (af + (en + (an + (em + (am + c))))))
  {
  }
}
