/** The two chunking strategies (`FixedSizeChunker`, `SentenceAwareChunker`).
    The regular-expression sentence split is an injected function; the strip and
    filter around it are modelled. Each strategy's `chunk` is a method with the
    source's loop, proved equal to a specification function; the properties are
    lemmas about those functions. */
module Chunkers {
  import opened Wrappers
  import opened Text
  import Interfaces

  datatype Chunker =
    | FixedSize(chunkSize: int, overlap: int)
    | SentenceAware(targetChunkSize: int, maxChunkSize: int, splitter: string -> seq<string>)
  {
    /** What the constructors establish. */
    predicate Valid() {
      match this
      case FixedSize(size, overlap) => 0 <= overlap < size
      case SentenceAware(target, maxSize, _) => 0 < target <= maxSize
    }
  }

  /** A chunker its constructor accepted. */
  type ValidChunker = c: Chunker | c.Valid() witness FixedSize(512, 50)

  function Min(a: int, b: int): int { if a <= b then a else b }
  function Max(a: int, b: int): int { if a >= b then a else b }

  // ---------------------------------------------------------------- construction

  /** `FixedSizeChunker(chunk_size, overlap)`: the three checks, in order. */
  function NewFixedSize(chunkSize: int, overlap: int): (r: Result<Chunker>)
    ensures r.Ok? <==> 0 < chunkSize && 0 <= overlap < chunkSize
    ensures r.Ok? ==> r.value == FixedSize(chunkSize, overlap) && r.value.Valid()
    ensures chunkSize <= 0 ==> r == Err(ValueError("chunk_size must be positive"))
    ensures chunkSize > 0 && overlap < 0 ==> r == Err(ValueError("overlap must be non-negative"))
    ensures chunkSize > 0 && overlap >= chunkSize ==> r == Err(ValueError("overlap must be less than chunk_size"))
  {
    if chunkSize <= 0 then Err(ValueError("chunk_size must be positive"))
    else if overlap < 0 then Err(ValueError("overlap must be non-negative"))
    else if overlap >= chunkSize then Err(ValueError("overlap must be less than chunk_size"))
    else Ok(FixedSize(chunkSize, overlap))
  }

  /** `SentenceAwareChunker(target_chunk_size, max_chunk_size)`; the maximum
      defaults to twice the target when it is `None` (or falsy). */
  function NewSentenceAware(target: int, maxSize: Option<int>, splitter: string -> seq<string>): (r: Result<Chunker>)
    ensures r.Ok? <==> 0 < target && (maxSize.None? || maxSize.value >= target)
    ensures r.Ok? ==> r.value.Valid() && r.value.SentenceAware? && r.value.targetChunkSize == target
    ensures r.Ok? ==> r.value.maxChunkSize == (if maxSize.Some? then maxSize.value else 2 * target)
    ensures target <= 0 ==> r == Err(ValueError("target_chunk_size must be positive"))
    ensures target > 0 && maxSize.Some? && maxSize.value < target ==>
      r == Err(ValueError("max_chunk_size must be >= target_chunk_size"))
  {
    if target <= 0 then Err(ValueError("target_chunk_size must be positive"))
    else if maxSize.Some? && maxSize.value < target then Err(ValueError("max_chunk_size must be >= target_chunk_size"))
    else
      var m := if maxSize.Some? && maxSize.value != 0 then maxSize.value else target * 2;
      Ok(SentenceAware(target, m, splitter))
  }

  // ---------------------------------------------------------------- fixed-size windows

  /** Python's `(a + d - 1) // d` for a positive divisor (floor division). */
  function CeilDiv(a: int, d: int): int
    requires d > 0
  {
    (a + d - 1) / d
  }

  lemma MulMono(a: nat, b: nat, d: nat)
    requires a <= b
    ensures a * d <= b * d
  {
    assert b * d == a * d + (b - a) * d;
  }

  /** Window `k` starts inside the text exactly when `k < ceil(len / step)`. */
  lemma {:induction false} WindowBound(len: nat, step: nat, k: nat)
    requires step > 0
    ensures k * step < len <==> k < CeilDiv(len, step)
  {
    var n := CeilDiv(len, step);
    var r := (len + step - 1) % step;
    assert len + step - 1 == n * step + r;
    assert n >= 0;
    if k < n {
      MulMono(k, n - 1, step);
      assert (n - 1) * step == n * step - step;
    } else {
      MulMono(n, k, step);
    }
  }

  /** `text[k*step : min(k*step + chunk_size, len(text))]` */
  function Window(text: string, size: nat, step: nat, k: nat): (w: string)
    requires step > 0 && k < CeilDiv(|text|, step)
    ensures |w| <= size
  {
    WindowBound(|text|, step, k);
    text[k * step .. Min(k * step + size, |text|)]
  }

  /** The windows `k, k+1, …` that survive the `chunk.strip()` test, in order. */
  function FixedFrom(text: string, size: nat, step: nat, k: nat): seq<string>
    requires step > 0 && k <= CeilDiv(|text|, step)
    decreases CeilDiv(|text|, step) - k
  {
    if k == CeilDiv(|text|, step) then []
    else
      var w := Window(text, size, step, k);
      (if IsBlank(w) then [] else [w]) + FixedFrom(text, size, step, k + 1)
  }

  /** Indices of the windows from `k` on that are not whitespace-only. */
  function KeptFrom(text: string, size: nat, step: nat, k: nat): seq<nat>
    requires step > 0 && k <= CeilDiv(|text|, step)
    decreases CeilDiv(|text|, step) - k
  {
    if k == CeilDiv(|text|, step) then []
    else (if IsBlank(Window(text, size, step, k)) then [] else [k]) + KeptFrom(text, size, step, k + 1)
  }

  /** Specification of `FixedSizeChunker.chunk`. */
  function FixedChunks(size: int, overlap: int, text: string): seq<string>
    requires 0 <= overlap < size
  {
    if text == [] then []
    else
      var cs := FixedFrom(text, size, size - overlap, 0);
      if cs == [] then [text] else cs
  }

  /** `FixedSizeChunker.chunk`, with the source's loop. */
  method ChunkFixed(size: int, overlap: int, text: string) returns (chunks: seq<string>)
    requires 0 <= overlap < size
    ensures chunks == FixedChunks(size, overlap, text)
  {
    if text == [] {
      return [];
    }
    chunks := [];
    var step := size - overlap;
    var start := 0;
    ghost var k: nat := 0;
    while start < |text|
      invariant start == k * step && k <= CeilDiv(|text|, step)
      invariant chunks + FixedFrom(text, size, step, k) == FixedFrom(text, size, step, 0)
      decreases |text| - start
    {
      WindowBound(|text|, step, k);
      var end := Min(start + size, |text|);
      var chunk := text[start..end];
      assert chunk == Window(text, size, step, k);
      if !IsBlank(chunk) {
        chunks := chunks + [chunk];
      }
      start := start + step;
      k := k + 1;
    }
    WindowBound(|text|, step, k);
    if chunks == [] {
      chunks := [text];
    }
  }

  /** `FixedSizeChunker.get_chunk_count_estimate` */
  function FixedEstimate(size: int, overlap: int, textLength: int): int
    requires 0 <= overlap < size
  {
    if textLength == 0 then 1 else Max(1, CeilDiv(textLength, size - overlap))
  }

  // ---------------------------------------------------------------- fixed-size properties

  lemma {:induction false} FixedFromIsKept(text: string, size: nat, step: nat, k: nat)
    requires step > 0 && k <= CeilDiv(|text|, step)
    ensures |FixedFrom(text, size, step, k)| == |KeptFrom(text, size, step, k)|
    ensures forall i :: 0 <= i < |KeptFrom(text, size, step, k)| ==>
      var j := KeptFrom(text, size, step, k)[i];
      k <= j < CeilDiv(|text|, step) && FixedFrom(text, size, step, k)[i] == Window(text, size, step, j)
    decreases CeilDiv(|text|, step) - k
  {
    if k < CeilDiv(|text|, step) {
      FixedFromIsKept(text, size, step, k + 1);
      var w := Window(text, size, step, k);
      var f := FixedFrom(text, size, step, k + 1);
      var kf := KeptFrom(text, size, step, k + 1);
      if IsBlank(w) {
        assert FixedFrom(text, size, step, k) == [] + f == f;
        assert KeptFrom(text, size, step, k) == [] + kf == kf;
      } else {
        assert FixedFrom(text, size, step, k) == [w] + f;
        assert KeptFrom(text, size, step, k) == [k] + kf;
        WindowsCons(text, size, step, k, f, kf);
      }
    }
  }

  /** Window `k` in front of windows `kf`, all past `k`, pairs up element by element. */
  lemma WindowsCons(text: string, size: nat, step: nat, k: nat, f: seq<string>, kf: seq<nat>)
    requires step > 0 && k < CeilDiv(|text|, step) && |f| == |kf|
    requires forall i :: 0 <= i < |kf| ==>
      k + 1 <= kf[i] < CeilDiv(|text|, step) && f[i] == Window(text, size, step, kf[i])
    ensures var all, kall := [Window(text, size, step, k)] + f, [k] + kf;
      forall i :: 0 <= i < |kall| ==>
        k <= kall[i] < CeilDiv(|text|, step) && all[i] == Window(text, size, step, kall[i])
  {
    var all, kall := [Window(text, size, step, k)] + f, [k] + kf;
    forall i | 0 <= i < |kall|
      ensures k <= kall[i] < CeilDiv(|text|, step) && all[i] == Window(text, size, step, kall[i])
    {
      if i > 0 {
        assert kall[i] == kf[i - 1] && all[i] == f[i - 1];
      }
    }
  }

  /** The kept indices lie in `[k, ceil(len/step))` and strictly increase. */
  lemma {:induction false} KeptIncreasing(text: string, size: nat, step: nat, k: nat)
    requires step > 0 && k <= CeilDiv(|text|, step)
    ensures forall j :: j in KeptFrom(text, size, step, k) ==> k <= j < CeilDiv(|text|, step)
    ensures forall i, j :: 0 <= i < j < |KeptFrom(text, size, step, k)| ==>
      KeptFrom(text, size, step, k)[i] < KeptFrom(text, size, step, k)[j]
    decreases CeilDiv(|text|, step) - k
  {
    if k < CeilDiv(|text|, step) {
      KeptIncreasing(text, size, step, k + 1);
      var rest := KeptFrom(text, size, step, k + 1);
      var head: seq<nat> := if IsBlank(Window(text, size, step, k)) then [] else [k];
      assert KeptFrom(text, size, step, k) == head + rest;
      forall i, j | 0 <= i < j < |head + rest|
        ensures (head + rest)[i] < (head + rest)[j]
      {
        if i >= |head| {
          assert (head + rest)[i] == rest[i - |head|] && (head + rest)[j] == rest[j - |head|];
        } else {
          assert (head + rest)[j] == rest[j - 1] && rest[j - 1] in rest;
        }
      }
    }
  }

  /** A window index is kept exactly when the window is not whitespace-only. */
  lemma {:induction false} KeptMembership(text: string, size: nat, step: nat, k: nat)
    requires step > 0 && k <= CeilDiv(|text|, step)
    ensures forall j: nat :: k <= j < CeilDiv(|text|, step) ==>
      (j in KeptFrom(text, size, step, k) <==> !IsBlank(Window(text, size, step, j)))
    decreases CeilDiv(|text|, step) - k
  {
    if k < CeilDiv(|text|, step) {
      KeptMembership(text, size, step, k + 1);
      KeptIncreasing(text, size, step, k + 1);
    }
  }

  /** No window from `k` on is whitespace-only. */
  predicate NoBlankWindowFrom(text: string, size: nat, step: nat, k: nat)
    requires step > 0
  {
    forall j: nat :: k <= j < CeilDiv(|text|, step) ==> !IsBlank(Window(text, size, step, j))
  }

  /** Every chunk of a non-empty text is window `k` for some increasing `k`,
      every window that is not whitespace-only is kept, and the text itself is
      the one chunk when every window is whitespace-only. */
  lemma FixedChunksAreWindows(size: int, overlap: int, text: string)
    requires 0 <= overlap < size && text != []
    ensures var step := size - overlap;
      var ks := KeptFrom(text, size, step, 0);
      var cs := FixedChunks(size, overlap, text);
      (ks == [] ==> cs == [text]) &&
      (ks != [] ==> (|cs| == |ks| &&
        (forall i :: 0 <= i < |ks| ==> ks[i] < CeilDiv(|text|, step) && cs[i] == Window(text, size, step, ks[i])) &&
        (forall i, j :: 0 <= i < j < |ks| ==> ks[i] < ks[j]) &&
        (forall j: nat :: j < CeilDiv(|text|, step) ==> (j in ks <==> !IsBlank(Window(text, size, step, j))))))
  {
    var step := size - overlap;
    FixedFromIsKept(text, size, step, 0);
    KeptIncreasing(text, size, step, 0);
    KeptMembership(text, size, step, 0);
    var ws := FixedFrom(text, size, step, 0);
    assert FixedChunks(size, overlap, text) == if ws == [] then [text] else ws;
  }

  lemma {:induction false} FixedFromBounds(text: string, size: nat, step: nat, k: nat)
    requires step > 0 && k <= CeilDiv(|text|, step)
    ensures |FixedFrom(text, size, step, k)| <= CeilDiv(|text|, step) - k
    ensures NoBlankWindowFrom(text, size, step, k) ==> |FixedFrom(text, size, step, k)| == CeilDiv(|text|, step) - k
    ensures forall i :: 0 <= i < |FixedFrom(text, size, step, k)| ==>
      FixedFrom(text, size, step, k)[i] != "" && |FixedFrom(text, size, step, k)[i]| <= size
    decreases CeilDiv(|text|, step) - k
  {
    if k < CeilDiv(|text|, step) {
      FixedFromBounds(text, size, step, k + 1);
    }
  }

  /** The chunk count never exceeds the estimate, and meets it when no window
      is whitespace-only; every chunk is non-empty and at most `chunk_size`
      long, except the whole-text fallback. */
  lemma FixedCountWithinEstimate(size: int, overlap: int, text: string)
    requires 0 <= overlap < size
    ensures |FixedChunks(size, overlap, text)| <= FixedEstimate(size, overlap, |text|)
    ensures Interfaces.ChunksNonEmpty(FixedChunks(size, overlap, text))
    ensures text != [] && NoBlankWindowFrom(text, size, size - overlap, 0) ==>
      |FixedChunks(size, overlap, text)| == FixedEstimate(size, overlap, |text|)
  {
    if text != [] {
      FixedFromBounds(text, size, size - overlap, 0);
      WindowBound(|text|, size - overlap, 0);
    }
  }

  /** The worked example: 1050 characters with size 512 and overlap 50 give the
      windows [0,512), [462,974) and [924,1050) when none is whitespace-only. */
  lemma FixedExample(text: string)
    requires |text| == 1050
    requires !IsBlank(text[0..512]) && !IsBlank(text[462..974]) && !IsBlank(text[924..1050])
    ensures FixedChunks(512, 50, text) == [text[0..512], text[462..974], text[924..1050]]
  {
    assert CeilDiv(1050, 462) == 3;
    assert Window(text, 512, 462, 0) == text[0..512];
    assert Window(text, 512, 462, 1) == text[462..974];
    assert Window(text, 512, 462, 2) == text[924..1050];
    assert FixedFrom(text, 512, 462, 3) == [];
    assert FixedFrom(text, 512, 462, 2) == [text[924..1050]];
    assert FixedFrom(text, 512, 462, 1) == [text[462..974], text[924..1050]];
  }

  /** The estimate is always at least one, and for a positive length it is
      `ceil(length / step)`. */
  lemma EstimateCharacterised(step: int, textLength: int)
    requires step > 0
    ensures Interfaces.EstimateValid(textLength, if textLength == 0 then 1 else Max(1, CeilDiv(textLength, step)))
    ensures textLength > 0 ==> var e := CeilDiv(textLength, step);
      e >= 1 && (e - 1) * step < textLength <= e * step
  {
    if textLength > 0 {
      var e := CeilDiv(textLength, step);
      WindowBound(textLength, step, 0);
      WindowBound(textLength, step, e - 1);
      WindowBound(textLength, step, e);
    }
  }

  // ---------------------------------------------------------------- sentence-aware packing

  /** `[s.strip() for s in parts if s.strip()]` */
  function StrippedNonBlank(parts: seq<string>): (ss: seq<string>)
    ensures forall i :: 0 <= i < |ss| ==> ss[i] != ""
    ensures |ss| <= |parts|
  {
    if parts == [] then []
    else (if IsBlank(parts[0]) then [] else [Strip(parts[0])]) + StrippedNonBlank(parts[1..])
  }

  /** `SentenceAwareChunker._split_into_sentences`, over the injected regex split. */
  function Sentences(splitter: string -> seq<string>, text: string): (ss: seq<string>)
    ensures forall i :: 0 <= i < |ss| ==> ss[i] != ""
  {
    StrippedNonBlank(splitter(text))
  }

  /** The loop state of `SentenceAwareChunker.chunk`: the closed chunks (as
      their sentence lists), `current_chunk` and `current_size`. */
  datatype Pack = Pack(groups: seq<seq<string>>, current: seq<string>, size: int)

  /** One iteration of the loop over the sentences. */
  function PackStep(p: Pack, s: string, target: int, maxSize: int): Pack {
    if p.size + |s| > maxSize && p.current != [] then Pack(p.groups + [p.current], [s], |s|)
    else if p.size + |s| > target && p.current != [] then Pack(p.groups + [p.current], [s], |s|)
    else Pack(p.groups, p.current + [s], p.size + |s| + 1)
  }

  function PackAll(p: Pack, ss: seq<string>, target: int, maxSize: int): Pack
    decreases |ss|
  {
    if ss == [] then p else PackAll(PackStep(p, ss[0], target, maxSize), ss[1..], target, maxSize)
  }

  /** The groups once a non-empty `current_chunk` has been appended. */
  function Closed(p: Pack): seq<seq<string>> {
    if p.current != [] then p.groups + [p.current] else p.groups
  }

  function SentenceGroups(target: int, maxSize: int, ss: seq<string>): seq<seq<string>> {
    Closed(PackAll(Pack([], [], 0), ss, target, maxSize))
  }

  /** `' '.join(group)` for every group. */
  function JoinEach(groups: seq<seq<string>>): (cs: seq<string>)
    ensures |cs| == |groups|
  {
    if groups == [] then [] else [Join(" ", groups[0])] + JoinEach(groups[1..])
  }

  /** Specification of `SentenceAwareChunker.chunk`. */
  function SentenceChunks(target: int, maxSize: int, splitter: string -> seq<string>, text: string): seq<string> {
    if text == [] then []
    else
      var ss := Sentences(splitter, text);
      if ss == [] then [text]
      else
        var cs := JoinEach(SentenceGroups(target, maxSize, ss));
        if cs == [] then [text] else cs
  }

  lemma JoinEachAppend(groups: seq<seq<string>>, g: seq<string>)
    ensures JoinEach(groups + [g]) == JoinEach(groups) + [Join(" ", g)]
  {
    if groups != [] {
      assert (groups + [g])[1..] == groups[1..] + [g];
      JoinEachAppend(groups[1..], g);
    }
  }

  /** The scan of the sentences from `i` on is one step, then the scan from `i + 1` on. */
  lemma PackAllStep(p: Pack, ss: seq<string>, i: nat, target: int, maxSize: int)
    requires i < |ss|
    ensures PackAll(p, ss[i..], target, maxSize) == PackAll(PackStep(p, ss[i], target, maxSize), ss[i + 1..], target, maxSize)
  {
    assert ss[i..][1..] == ss[i + 1..];
  }

  /** `SentenceAwareChunker.chunk`, with the source's loop. */
  method ChunkSentences(target: int, maxSize: int, splitter: string -> seq<string>, text: string)
    returns (chunks: seq<string>)
    ensures chunks == SentenceChunks(target, maxSize, splitter, text)
  {
    if text == [] {
      return [];
    }
    var ss := Sentences(splitter, text);
    if ss == [] {
      return [text];
    }
    chunks := [];
    var current: seq<string> := [];
    var size := 0;
    ghost var groups: seq<seq<string>> := [];
    for i := 0 to |ss|
      invariant chunks == JoinEach(groups)
      invariant PackAll(Pack(groups, current, size), ss[i..], target, maxSize) == PackAll(Pack([], [], 0), ss, target, maxSize)
    {
      ghost var before := Pack(groups, current, size);
      PackAllStep(before, ss, i, target, maxSize);
      var sentence := ss[i];
      if size + |sentence| > maxSize && current != [] {
        JoinEachAppend(groups, current);
        chunks := chunks + [Join(" ", current)];
        groups := groups + [current];
        current := [sentence];
        size := |sentence|;
      } else if size + |sentence| > target && current != [] {
        JoinEachAppend(groups, current);
        chunks := chunks + [Join(" ", current)];
        groups := groups + [current];
        current := [sentence];
        size := |sentence|;
      } else {
        current := current + [sentence];
        size := size + |sentence| + 1;
      }
      assert Pack(groups, current, size) == PackStep(before, sentence, target, maxSize);
    }
    if current != [] {
      JoinEachAppend(groups, current);
      chunks := chunks + [Join(" ", current)];
      groups := groups + [current];
    }
    if chunks == [] {
      chunks := [text];
    }
  }

  /** `SentenceAwareChunker.get_chunk_count_estimate` */
  function SentenceEstimate(target: int, textLength: int): (e: int)
    requires target > 0
  {
    if textLength == 0 then 1 else Max(1, CeilDiv(textLength, target))
  }

  // ---------------------------------------------------------------- sentence-aware properties

  function Flatten(groups: seq<seq<string>>): seq<string> {
    if groups == [] then [] else groups[0] + Flatten(groups[1..])
  }

  lemma {:induction false} FlattenAppend(a: seq<seq<string>>, b: seq<seq<string>>)
    ensures Flatten(a + b) == Flatten(a) + Flatten(b)
  {
    if a != [] {
      assert (a + b)[1..] == a[1..] + b;
      FlattenAppend(a[1..], b);
    } else {
      assert a + b == b;
    }
  }

  predicate NonEmptyGroups(groups: seq<seq<string>>) {
    forall i :: 0 <= i < |groups| ==> groups[i] != []
  }

  lemma {:induction false} PackKeepsSentences(p: Pack, ss: seq<string>, target: int, maxSize: int)
    requires NonEmptyGroups(p.groups)
    ensures NonEmptyGroups(Closed(PackAll(p, ss, target, maxSize)))
    ensures Flatten(Closed(PackAll(p, ss, target, maxSize))) == Flatten(Closed(p)) + ss
    decreases |ss|
  {
    if ss != [] {
      var q := PackStep(p, ss[0], target, maxSize);
      if p.current != [] {
        FlattenAppend(p.groups, [p.current]);
      }
      if q.groups != p.groups {
        FlattenAppend(p.groups + [p.current], [[ss[0]]]);
      } else {
        FlattenAppend(p.groups, [p.current + [ss[0]]]);
      }
      PackKeepsSentences(q, ss[1..], target, maxSize);
      assert ss == [ss[0]] + ss[1..];
    }
  }

  /** Joining the chunks with spaces gives the sentences joined with spaces. */
  lemma {:induction false} JoinEachFlatten(groups: seq<seq<string>>)
    requires groups != [] && NonEmptyGroups(groups)
    ensures Join(" ", JoinEach(groups)) == Join(" ", Flatten(groups))
  {
    if |groups| > 1 {
      JoinEachFlatten(groups[1..]);
      assert Flatten(groups[1..]) != [] by {
        assert groups[1..][0] == groups[1];
      }
      JoinAppend(" ", groups[0], Flatten(groups[1..]));
    } else {
      assert groups[1..] == [];
      assert JoinEach(groups) == [Join(" ", groups[0])];
      assert Flatten(groups[1..]) == [];
      assert Flatten(groups) == groups[0];
      assert Join(" ", [Join(" ", groups[0])]) == Join(" ", groups[0]);
    }
  }

  /** Every sentence lands, whole and in order, in exactly one chunk: the groups
      behind the chunks concatenate to the sentence list, none is empty, and the
      chunks joined with spaces are the sentences joined with spaces. No
      sentence is ever cut, however long. */
  lemma SentenceChunksPartition(target: int, maxSize: int, ss: seq<string>)
    requires ss != []
    ensures NonEmptyGroups(SentenceGroups(target, maxSize, ss))
    ensures Flatten(SentenceGroups(target, maxSize, ss)) == ss
    ensures |JoinEach(SentenceGroups(target, maxSize, ss))| >= 1
    ensures Join(" ", JoinEach(SentenceGroups(target, maxSize, ss))) == Join(" ", ss)
  {
    PackKeepsSentences(Pack([], [], 0), ss, target, maxSize);
    var g := SentenceGroups(target, maxSize, ss);
    JoinEachFlatten(g);
  }

  /** The `max_chunk_size` branch is redundant: with `max >= target` the step is
      the same as with the target alone. */
  lemma MaxBranchRedundant(p: Pack, s: string, target: int, maxSize: int)
    requires target <= maxSize
    ensures PackStep(p, s, target, maxSize) == PackStep(p, s, target, target)
  {
  }

  /** Hence `max_chunk_size` never changes the chunks. */
  lemma {:induction false} MaxSizeIrrelevant(p: Pack, ss: seq<string>, target: int, maxSize: int)
    requires target <= maxSize
    ensures PackAll(p, ss, target, maxSize) == PackAll(p, ss, target, target)
    decreases |ss|
  {
    if ss != [] {
      MaxBranchRedundant(p, ss[0], target, maxSize);
      MaxSizeIrrelevant(PackStep(p, ss[0], target, maxSize), ss[1..], target, maxSize);
    }
  }

  /** Sum of `len(s) + 1` over a list of sentences. */
  function SumPlus(g: seq<string>): int {
    if g == [] then 0 else SumPlus(g[..|g| - 1]) + |g[|g| - 1]| + 1
  }

  /** `current_size` after the sentences of a group were added: the first group
      starts from zero; a later group starts at its first sentence's length. */
  function Acc(g: seq<string>, first: bool): int {
    if first || g == [] then SumPlus(g) else |g[0]| + SumPlus(g[1..])
  }

  /** The greedy packing rule on the finished groups: a group is closed only
      when the next sentence would take `current_size` past the target, and
      every sentence added to an open group kept it within the target. */
  predicate Greedy(groups: seq<seq<string>>, target: int) {
    (forall j :: 1 <= j < |groups| ==> groups[j] != [] && Acc(groups[j - 1], j == 1) + |groups[j][0]| > target) &&
    (forall j, m :: 0 <= j < |groups| && 0 < m < |groups[j]| ==> Acc(groups[j][..m], j == 0) + |groups[j][m]| <= target)
  }

  predicate PackInv(p: Pack, target: int) {
    (p.current == [] ==> p.groups == [] && p.size == 0) &&
    p.size == Acc(p.current, p.groups == []) &&
    NonEmptyGroups(p.groups) &&
    Greedy(Closed(p), target)
  }

  lemma AccAppend(g: seq<string>, s: string, first: bool)
    requires first || g != []
    ensures Acc(g + [s], first) == Acc(g, first) + |s| + 1
  {
    assert (g + [s])[..|g + [s]| - 1] == g;
    if !first {
      assert (g + [s])[1..] == g[1..] + [s];
      assert (g[1..] + [s])[..|g[1..] + [s]| - 1] == g[1..];
    }
  }

  lemma PackStepInv(p: Pack, s: string, target: int, maxSize: int)
    requires target <= maxSize && PackInv(p, target)
    ensures PackInv(PackStep(p, s, target, maxSize), target)
  {
    if p.current != [] && p.size + |s| > target {
      FlushInv(p, s, target);
    } else if p.current == [] {
      assert p.current + [s] == [s];
      assert Closed(PackStep(p, s, target, maxSize)) == [[s]];
      assert Acc([s], true) == SumPlus([]) + |s| + 1;
    } else {
      AppendInv(p, s, target);
    }
  }

  /** Closing the current group keeps the invariant. */
  lemma FlushInv(p: Pack, s: string, target: int)
    requires PackInv(p, target) && p.current != [] && p.size + |s| > target
    ensures PackInv(Pack(p.groups + [p.current], [s], |s|), target)
  {
    var G := Closed(p);
    var H := Closed(Pack(p.groups + [p.current], [s], |s|));
    assert H == G + [[s]];
    assert H[|H| - 2] == p.current;
    assert Acc([s], false) == |s| + SumPlus([]);
    forall j | 1 <= j < |H|
      ensures H[j] != [] && Acc(H[j - 1], j == 1) + |H[j][0]| > target
    {
      if j < |G| {
        assert H[j] == G[j] && H[j - 1] == G[j - 1];
      }
    }
    forall j, m | 0 <= j < |H| && 0 < m < |H[j]|
      ensures Acc(H[j][..m], j == 0) + |H[j][m]| <= target
    {
      assert j < |G|;
      assert H[j] == G[j];
    }
  }

  /** Adding a sentence that keeps the size within the target keeps the invariant. */
  lemma AppendInv(p: Pack, s: string, target: int)
    requires PackInv(p, target) && p.current != [] && p.size + |s| <= target
    ensures PackInv(Pack(p.groups, p.current + [s], p.size + |s| + 1), target)
  {
    AccAppend(p.current, s, p.groups == []);
    var n := |p.groups|;
    var G := Closed(p);
    var H := Closed(Pack(p.groups, p.current + [s], p.size + |s| + 1));
    assert G == p.groups + [p.current] && H == p.groups + [p.current + [s]];
    forall j | 1 <= j < |H|
      ensures H[j] != [] && Acc(H[j - 1], j == 1) + |H[j][0]| > target
    {
      if j < n {
        assert H[j] == G[j] && H[j - 1] == G[j - 1];
      } else {
        assert H[j - 1] == G[j - 1] && H[j][0] == G[j][0];
      }
    }
    forall j, m | 0 <= j < |H| && 0 < m < |H[j]|
      ensures Acc(H[j][..m], j == 0) + |H[j][m]| <= target
    {
      if j < n {
        assert H[j] == G[j];
      } else if m < |p.current| {
        assert H[j][..m] == G[j][..m] && H[j][m] == G[j][m];
      } else {
        assert H[j][..m] == p.current && H[j][m] == s;
      }
    }
  }

  lemma {:induction false} PackAllInv(p: Pack, ss: seq<string>, target: int, maxSize: int)
    requires target <= maxSize && PackInv(p, target)
    ensures PackInv(PackAll(p, ss, target, maxSize), target)
    decreases |ss|
  {
    if ss != [] {
      PackStepInv(p, ss[0], target, maxSize);
      PackAllInv(PackStep(p, ss[0], target, maxSize), ss[1..], target, maxSize);
    }
  }

  /** The groups behind the chunks follow the greedy rule: a new chunk starts
      exactly when the chunk so far is non-empty and adding the next sentence
      would exceed the target size. */
  lemma SentenceGroupsGreedy(target: int, maxSize: int, ss: seq<string>)
    requires target <= maxSize
    ensures Greedy(SentenceGroups(target, maxSize, ss), target)
  {
    assert PackInv(Pack([], [], 0), target) by {
      assert Closed(Pack([], [], 0)) == [];
    }
    PackAllInv(Pack([], [], 0), ss, target, maxSize);
  }

  /** Every chunk is non-empty (the `Chunker.chunk` contract). */
  lemma SentenceChunksNonEmpty(target: int, maxSize: int, splitter: string -> seq<string>, text: string)
    ensures Interfaces.ChunksNonEmpty(SentenceChunks(target, maxSize, splitter, text))
    ensures text != [] ==> SentenceChunks(target, maxSize, splitter, text) != []
  {
    var ss := Sentences(splitter, text);
    if text != [] && ss != [] {
      SentenceChunksPartition(target, maxSize, ss);
      var g := SentenceGroups(target, maxSize, ss);
      forall i | 0 <= i < |g|
        ensures JoinEach(g)[i] != ""
      {
        JoinEachIndex(g, i);
        FlattenMember(g, i, 0);
        JoinNonEmpty(g[i]);
      }
    }
  }

  lemma {:induction false} JoinEachIndex(groups: seq<seq<string>>, i: nat)
    requires i < |groups|
    ensures JoinEach(groups)[i] == Join(" ", groups[i])
  {
    if i > 0 { JoinEachIndex(groups[1..], i - 1); }
  }

  lemma {:induction false} FlattenMember(groups: seq<seq<string>>, j: nat, m: nat)
    requires j < |groups| && m < |groups[j]|
    ensures groups[j][m] in Flatten(groups)
  {
    if j > 0 { FlattenMember(groups[1..], j - 1, m); }
  }

  lemma {:induction false} JoinNonEmpty(parts: seq<string>)
    requires parts != [] && parts[0] != ""
    ensures Join(" ", parts) != ""
  {
  }

  // ---------------------------------------------------------------- the Chunker interface

  /** `chunker.chunk(text)` for either strategy. */
  function ChunkSpec(c: Chunker, text: string): seq<string>
    requires c.Valid()
  {
    match c
    case FixedSize(size, overlap) => FixedChunks(size, overlap, text)
    case SentenceAware(target, maxSize, splitter) => SentenceChunks(target, maxSize, splitter, text)
  }

  method Chunk(c: Chunker, text: string) returns (chunks: seq<string>)
    requires c.Valid()
    ensures chunks == ChunkSpec(c, text)
  {
    match c {
      case FixedSize(size, overlap) =>
        chunks := ChunkFixed(size, overlap, text);
      case SentenceAware(target, maxSize, splitter) =>
        chunks := ChunkSentences(target, maxSize, splitter, text);
    }
  }

  /** `chunker.get_chunk_count_estimate(text_length)` for either strategy. */
  function Estimate(c: Chunker, textLength: int): int
    requires c.Valid()
  {
    match c
    case FixedSize(size, overlap) => FixedEstimate(size, overlap, textLength)
    case SentenceAware(target, _, _) => SentenceEstimate(target, textLength)
  }

  /** Both strategies meet the `Chunker` contract: chunks are non-empty, a
      non-empty text gives at least one chunk, an empty text gives none, and
      the estimate is at least one. */
  lemma ChunkerContract(c: Chunker, text: string, textLength: int)
    requires c.Valid()
    ensures Interfaces.ChunksNonEmpty(ChunkSpec(c, text))
    ensures text == [] <==> ChunkSpec(c, text) == []
    ensures Interfaces.EstimateValid(textLength, Estimate(c, textLength))
  {
    match c {
      case FixedSize(size, overlap) =>
        FixedCountWithinEstimate(size, overlap, text);
        EstimateCharacterised(size - overlap, textLength);
      case SentenceAware(target, maxSize, splitter) =>
        SentenceChunksNonEmpty(target, maxSize, splitter, text);
        EstimateCharacterised(target, textLength);
    }
  }
}
