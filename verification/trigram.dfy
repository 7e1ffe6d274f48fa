/** The trigram accelerator behind `LIKE` and text search: the set of
    3-byte windows of a text, and the candidate documents for a pattern,
    the intersection of the posting bitmaps of the pattern's trigrams.
    Texts are their UTF-8 bytes. */
module Trigrams {
  import opened Wrappers
  import opened Seqs

  /** `[u8; 3]`. */
  datatype Trigram = Trigram(a: Byte, b: Byte, c: Byte)

  /** The window of `bytes` starting at `i`. */
  function WindowAt(bytes: seq<Byte>, i: nat): Trigram
    requires i + 3 <= |bytes|
  {
    Trigram(bytes[i], bytes[i + 1], bytes[i + 2])
  }

  /** Whether `t` is one of the 3-byte windows of `bytes`. */
  predicate IsWindowOf(t: Trigram, bytes: seq<Byte>) {
    exists i | 0 <= i && i + 3 <= |bytes| :: t == WindowAt(bytes, i)
  }

  /** `extract_trigrams_cpu`: every 3-byte window of the text; none when
      the text is shorter than 3 bytes. */
  function ExtractTrigrams(bytes: seq<Byte>): (r: set<Trigram>)
    ensures |bytes| < 3 ==> r == {}
    ensures |bytes| >= 3 ==> |r| <= |bytes| - 2
    ensures forall t :: t in r <==> IsWindowOf(t, bytes)
  {
    if |bytes| < 3 then {}
    else
      var front := bytes[..|bytes| - 1];
      var prev := ExtractTrigrams(front);
      var last := WindowAt(bytes, |bytes| - 3);
      assert forall t :: t in prev + {last} <==> IsWindowOf(t, bytes) by {
        forall t
          ensures t in prev + {last} <==> IsWindowOf(t, bytes)
        {
          WindowsOfSnoc(bytes, t);
        }
      }
      assert |prev + {last}| <= |prev| + 1;
      prev + {last}
  }

  /** The windows of a text are those of the text without its last byte
      and the last window. */
  lemma WindowsOfSnoc(bytes: seq<Byte>, t: Trigram)
    requires |bytes| >= 3
    ensures IsWindowOf(t, bytes) <==> IsWindowOf(t, bytes[..|bytes| - 1]) || t == WindowAt(bytes, |bytes| - 3)
  {
    var front := bytes[..|bytes| - 1];
    if IsWindowOf(t, front) {
      var i :| 0 <= i && i + 3 <= |front| && t == WindowAt(front, i);
      assert t == WindowAt(bytes, i);
    }
    if IsWindowOf(t, bytes) {
      var i :| 0 <= i && i + 3 <= |bytes| && t == WindowAt(bytes, i);
      if i + 3 <= |front| {
        assert t == WindowAt(front, i);
      }
    }
  }

  /** Every trigram of a piece of a text is a trigram of the text: a
      document that contains the pattern holds all the pattern's
      trigrams. */
  lemma InfixTrigrams(text: seq<Byte>, i: nat, j: nat)
    requires i <= j <= |text|
    ensures ExtractTrigrams(text[i..j]) <= ExtractTrigrams(text)
  {
    var piece := text[i..j];
    forall t | t in ExtractTrigrams(piece)
      ensures t in ExtractTrigrams(text)
    {
      var k :| 0 <= k && k + 3 <= |piece| && t == WindowAt(piece, k);
      assert WindowAt(piece, k) == WindowAt(text, i + k);
    }
  }

  /** The posting bitmaps: documents by trigram. */
  type InvertedIndex = map<Trigram, set<nat>>

  /** Every document any bitmap names. */
  function AllDocs(index: InvertedIndex): (r: set<nat>)
    ensures forall t, d | t in index && d in index[t] :: d in r
  {
    set t, d | t in index && d in index[t] :: d
  }

  /** What `search_single` returns: nothing for a pattern without
      trigrams or with a trigram the index lacks; otherwise the documents
      in every one of its trigrams' bitmaps. */
  function Candidates(pattern: seq<Byte>, index: InvertedIndex): (r: set<nat>)
    ensures forall d :: d in r <==> (ExtractTrigrams(pattern) != {}
      && forall t | t in ExtractTrigrams(pattern) :: t in index && d in index[t])
  {
    var tg := ExtractTrigrams(pattern);
    if tg == {} || !(tg <= index.Keys) then {}
    else
      assert forall d | (forall t | t in tg :: d in index[t]) :: d in AllDocs(index) by {
        var t0 :| t0 in tg;
        assert forall d | (forall t | t in tg :: d in index[t]) :: d in index[t0];
      }
      set d | d in AllDocs(index) && forall t | t in tg :: d in index[t]
  }

  /** `search_single`: visits the pattern's trigrams in the hash set's
      order (any order here), intersecting their bitmaps and returning
      an empty result at the first trigram the index lacks. */
  method SearchSingle(pattern: seq<Byte>, index: InvertedIndex) returns (r: set<nat>)
    ensures forall d :: d in r <==> (ExtractTrigrams(pattern) != {}
      && forall t | t in ExtractTrigrams(pattern) :: t in index && d in index[t])
  {
    var tg := ExtractTrigrams(pattern);
    if tg == {} {
      return {};
    }
    var result: Option<set<nat>> := None;
    var rest := tg;
    while rest != {}
      invariant rest <= tg
      invariant result.None? <==> rest == tg
      invariant forall t | t in tg - rest :: t in index
      invariant result.Some? ==> forall d :: d in result.value <==> forall t | t in tg - rest :: d in index[t]
      decreases |rest|
    {
      var t :| t in rest;
      if t !in index {
        return {};
      }
      result := Some(match result case Some(acc) => acc * index[t] case None => index[t]);
      rest := rest - {t};
    }
    r := result.GetOr({});
  }

  /** A text of 3 bytes or more has a trigram. */
  lemma HasTrigram(bytes: seq<Byte>)
    requires |bytes| >= 3
    ensures ExtractTrigrams(bytes) != {}
  {
    assert WindowAt(bytes, 0) in ExtractTrigrams(bytes);
  }

  /** With an index whose bitmaps name document `d` under every trigram
      of its text, the search for a pattern of 3 bytes or more that occurs
      in the text returns `d`: the bitmaps over-approximate, and the
      caller checks the text itself. */
  lemma SearchFindsContaining(text: seq<Byte>, d: nat, index: InvertedIndex, pattern: seq<Byte>, i: nat)
    requires forall t | t in ExtractTrigrams(text) :: t in index && d in index[t]
    requires i + |pattern| <= |text| && text[i..i + |pattern|] == pattern
    requires |pattern| >= 3
    ensures d in Candidates(pattern, index)
  {
    OccurrenceTrigrams(text, pattern, i);
    CandidatesFromText(text, d, index, pattern);
  }

  lemma OccurrenceTrigrams(text: seq<Byte>, pattern: seq<Byte>, i: nat)
    requires i + |pattern| <= |text| && text[i..i + |pattern|] == pattern
    ensures ExtractTrigrams(pattern) <= ExtractTrigrams(text)
  {
    forall t | t in ExtractTrigrams(pattern)
      ensures t in ExtractTrigrams(text)
    {
      var k :| 0 <= k && k + 3 <= |pattern| && t == WindowAt(pattern, k);
      assert pattern[k] == text[i + k] && pattern[k + 1] == text[i + k + 1] && pattern[k + 2] == text[i + k + 2];
      assert t == WindowAt(text, i + k);
    }
  }

  lemma CandidatesFromText(text: seq<Byte>, d: nat, index: InvertedIndex, pattern: seq<Byte>)
    requires ExtractTrigrams(pattern) <= ExtractTrigrams(text)
    requires forall t | t in ExtractTrigrams(text) :: t in index && d in index[t]
    requires |pattern| >= 3
    ensures d in Candidates(pattern, index)
  {
    HasTrigram(pattern);
  }

  /** `batch_search`: one search per pattern, in order. */
  method BatchSearch(patterns: seq<seq<Byte>>, index: InvertedIndex) returns (r: seq<set<nat>>)
    ensures |r| == |patterns|
    ensures forall k | 0 <= k < |r| :: r[k] == Candidates(patterns[k], index)
  {
    r := [];
    for k := 0 to |patterns|
      invariant |r| == k
      invariant forall j | 0 <= j < k :: r[j] == Candidates(patterns[j], index)
    {
      var found := SearchSingle(patterns[k], index);
      r := r + [found];
    }
  }

  /** `batch_extract_trigrams`: one trigram set per document, in order. */
  function BatchExtract(docs: seq<seq<Byte>>): (r: seq<set<Trigram>>)
    ensures |r| == |docs|
    ensures forall k | 0 <= k < |r| :: forall t :: t in r[k] <==>
      IsWindowOf(t, docs[k])
  {
    seq(|docs|, k requires 0 <= k < |docs| => ExtractTrigrams(docs[k]))
  }

  /** `TrigramComputeBackend`; `Gpu` exists only with the `gpu` feature. */
  datatype Backend = CpuSimd | Gpu

  /** `auto_select`: the GPU only when the feature is compiled in, a GPU
      is present, and the workload is large (over 500 000 documents, or
      over 100 000 with more than 10 patterns). */
  function AutoSelect(gpuFeature: bool, gpuAvailable: bool, docCount: nat, patternCount: nat): (r: Backend)
    ensures r == Gpu <==> (gpuFeature && gpuAvailable
      && (docCount > 500_000 || (docCount > 100_000 && patternCount > 10)))
  {
    if gpuFeature && (docCount > 500_000 || (docCount > 100_000 && patternCount > 10)) && gpuAvailable then Gpu
    else CpuSimd
  }

  /** Without the `gpu` feature every workload runs on the CPU. */
  lemma NoFeatureMeansCpu(gpuAvailable: bool, docCount: nat, patternCount: nat)
    ensures AutoSelect(false, gpuAvailable, docCount, patternCount) == CpuSimd
  {
  }

  /** `name`: the label for logs. */
  function Name(b: Backend): string {
    match b
    case CpuSimd => "CPU SIMD"
    case Gpu => "GPU (wgpu)"
  }
}
