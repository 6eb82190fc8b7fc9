/**
 The parallel run-length compressor of projects/concurrency-pzip/pzip.c: files are cut into
 pages, each page is encoded on its own by `compress`, and `main` merges the encodings.
 Counts are unbounded; linked Result lists are sequences.
 */
module Pzip {
  import opened Wrappers

  /** A Result: `count` times `character`. */
  datatype Run = Run(count: nat, character: char)

  const NUL: char := '\0'

  // ---------------------------------------------------------------- run-length encodings

  function Repeat(n: nat, c: char): seq<char> {
    seq(n, _ => c)
  }

  /** What a list of runs stands for. */
  ghost function Expand(rs: seq<Run>): seq<char> {
    if rs == [] then [] else Expand(rs[..|rs| - 1]) + Repeat(rs[|rs| - 1].count, rs[|rs| - 1].character)
  }

  /** Runs are maximal: no empty run, and neighbours differ. */
  ghost predicate Canonical(rs: seq<Run>) {
    && (forall i :: 0 <= i < |rs| ==> rs[i].count > 0)
    && (forall i :: 0 <= i < |rs| - 1 ==> rs[i].character != rs[i + 1].character)
  }

  /** `rs` is the run-length encoding of `s`. */
  ghost predicate Encodes(rs: seq<Run>, s: seq<char>) {
    Expand(rs) == s && Canonical(rs)
  }

  /** Appending one character to an encoding. */
  ghost function Extend(rs: seq<Run>, c: char): seq<Run> {
    if rs != [] && rs[|rs| - 1].character == c
    then rs[..|rs| - 1] + [Run(rs[|rs| - 1].count + 1, c)]
    else rs + [Run(1, c)]
  }

  lemma ExtendEncodes(rs: seq<Run>, s: seq<char>, c: char)
    requires Encodes(rs, s)
    ensures Encodes(Extend(rs, c), s + [c])
  {
    var e := Extend(rs, c);
    var n := |e| - 1;
    if |rs| == |e| {
      assert e[..n] == rs[..n];
      assert Repeat(rs[n].count + 1, c) == Repeat(rs[n].count, c) + [c];
    } else {
      assert e[..n] == rs;
      assert Repeat(1, c) == [c];
    }
  }

  lemma EmptyEncodes()
    ensures Encodes([], [])
  {
  }

  ghost predicate EndsIn(s: seq<char>, c: char) {
    s != [] && s[|s| - 1] == c
  }

  /** The last run of an encoding, seen from the text: the text before it does not end in its character. */
  lemma LastRun(rs: seq<Run>, s: seq<char>)
    requires Encodes(rs, s) && rs != []
    ensures var r, front := rs[|rs| - 1], rs[..|rs| - 1];
            && s == Expand(front) + Repeat(r.count, r.character)
            && Encodes(front, Expand(front)) && !EndsIn(Expand(front), r.character)
  {
    var front := rs[..|rs| - 1];
    if front != [] {
      var q := front[|front| - 1];
      assert q == rs[|front| - 1];
      assert Repeat(q.count, q.character)[q.count - 1] == q.character;
    }
  }

  /** A text has only one run-length encoding. */
  lemma {:induction false} EncodingUnique(a: seq<Run>, b: seq<Run>, s: seq<char>)
    requires Encodes(a, s) && Encodes(b, s)
    ensures a == b
  {
    if a == [] || b == [] {
      if a != [] { LastRun(a, s); }
      if b != [] { LastRun(b, s); }
    } else {
      LastRun(a, s);
      LastRun(b, s);
      var p, q := a[|a| - 1], b[|b| - 1];
      var x, y := Expand(a[..|a| - 1]), Expand(b[..|b| - 1]);
      SameLastRun(x, p, y, q, s);
      EncodingUnique(a[..|a| - 1], b[..|b| - 1], x);
    }
  }

  lemma SameLastRun(x: seq<char>, p: Run, y: seq<char>, q: Run, s: seq<char>)
    requires p.count > 0 && q.count > 0
    requires s == x + Repeat(p.count, p.character) && !EndsIn(x, p.character)
    requires s == y + Repeat(q.count, q.character) && !EndsIn(y, q.character)
    ensures p == q && x == y
  {
    assert s[|s| - 1] == p.character == q.character;
    assert x == s[..|x|] && y == s[..|y|];
    assert forall j :: |x| <= j < |s| ==> s[j] == p.character;
    assert forall j :: |y| <= j < |s| ==> s[j] == q.character;
    assert |x| == |y|;
  }

  // ---------------------------------------------------------------- compress

  /** The run-building loop of `compress`. */
  method Compress(chunk: seq<char>) returns (results: seq<Run>)
    ensures chunk != [] ==> Encodes(results, chunk)
    ensures chunk == [] ==> results == [Run(0, NUL)]
    ensures results != []
  {
    hide Encodes;
    EmptyEncodes();
    results := [];
    var previousCharacter, previousCount := NUL, 0;
    for i := 0 to |chunk|
      invariant i == 0 ==> previousCount == 0
      invariant previousCount == 0 ==> i == 0 && results == [] && previousCharacter == NUL
      invariant previousCount > 0 ==> Encodes(results + [Run(previousCount, previousCharacter)], chunk[..i])
    {
      ghost var current := if previousCount > 0 then results + [Run(previousCount, previousCharacter)] else [];
      ExtendEncodes(current, chunk[..i], chunk[i]);
      assert chunk[..i + 1] == chunk[..i] + [chunk[i]];
      var character := chunk[i];
      if character == previousCharacter {
        previousCount := previousCount + 1;
      } else {
        if previousCount != 0 {
          results := results + [Run(previousCount, previousCharacter)];
        }
        previousCount := 1;
        previousCharacter := character;
      }
      assert results + [Run(previousCount, previousCharacter)] == Extend(current, character);
    }
    results := results + [Run(previousCount, previousCharacter)];
    assert chunk[..|chunk|] == chunk;
  }

  // ---------------------------------------------------------------- the merge

  /** Two encodings side by side, with the runs that meet fused. */
  ghost function Join(x: seq<Run>, y: seq<Run>): seq<Run>
    requires y != []
  {
    if x != [] && x[|x| - 1].character == y[0].character
    then x[..|x| - 1] + [Run(x[|x| - 1].count + y[0].count, y[0].character)] + y[1..]
    else x + y
  }

  lemma {:induction false} ExpandAppend(x: seq<Run>, y: seq<Run>)
    ensures Expand(x + y) == Expand(x) + Expand(y)
  {
    hide Repeat;
    if y == [] {
      assert x + y == x;
    } else {
      var n := |y| - 1;
      ExpandAppend(x, y[..n]);
      assert (x + y)[..|x| + n] == x + y[..n];
    }
  }

  lemma ExpandOne(r: Run)
    ensures Expand([r]) == Repeat(r.count, r.character)
  {
    assert [r][..0] == [];
  }

  lemma JoinExpand(x: seq<Run>, y: seq<Run>)
    requires y != []
    ensures Expand(Join(x, y)) == Expand(x) + Expand(y)
  {
    hide Expand;
    ExpandAppend(x, y);
    if x != [] && x[|x| - 1].character == y[0].character {
      var front, a, b := x[..|x| - 1], x[|x| - 1], y[0];
      var fused := Run(a.count + b.count, b.character);
      ExpandAppend(front, [a]);
      ExpandAppend([b], y[1..]);
      ExpandAppend(front + [fused], y[1..]);
      ExpandAppend(front, [fused]);
      ExpandOne(a);
      ExpandOne(b);
      ExpandOne(fused);
      assert x == front + [a] && y == [b] + y[1..];
      assert Repeat(fused.count, b.character) == Repeat(a.count, b.character) + Repeat(b.count, b.character);
    }
  }

  lemma JoinEncodes(x: seq<Run>, s: seq<char>, y: seq<Run>, t: seq<char>)
    requires Encodes(x, s) && Encodes(y, t) && y != []
    ensures Encodes(Join(x, y), s + t)
  {
    hide Expand, Canonical, Join;
    JoinExpand(x, y);
    JoinCanonical(x, y);
  }

  lemma JoinCanonical(x: seq<Run>, y: seq<Run>)
    requires Canonical(x) && Canonical(y) && y != []
    ensures Canonical(Join(x, y))
  {
    var z := Join(x, y);
    var off := |z| - |y|;
    assert forall i :: off < i < |z| ==> z[i] == y[i - off];
    assert forall i :: 0 <= i < off ==> z[i] == x[i];
    assert z[off].character == y[0].character && z[off].count > 0;
  }

  lemma JoinFront(x: seq<Run>, y: seq<Run>, k: nat)
    requires 1 <= k <= |y|
    ensures Join(x, y) == Join(x, y[..k]) + y[k..]
  {
  }

  /** Only the last run of the left side matters. */
  lemma JoinPrefix(x: seq<Run>, p: seq<Run>, y: seq<Run>)
    requires y != [] && (p == [] ==> x == [])
    ensures Join(x + p, y) == x + Join(p, y)
  {
  }

  lemma NonEmpty(rs: seq<Run>, s: seq<char>)
    requires Encodes(rs, s) && s != []
    ensures rs != []
  {
  }

  /** The run held back at a page boundary, if any. */
  ghost function Pending(lastCount: nat, lastCharacter: char): seq<Run> {
    if lastCount > 0 then [Run(lastCount, lastCharacter)] else []
  }

  /** The inner while of the merge: the results of one page. */
  method MergeChunk(results: seq<Run>, isLast: bool, out0: seq<Run>, lastCount0: nat, lastCharacter0: char)
    returns (out: seq<Run>, lastCount: nat, lastCharacter: char)
    requires results != [] && Canonical(results)
    requires lastCount0 == 0 ==> lastCharacter0 == NUL
    ensures isLast ==> out == out0 + Join(Pending(lastCount0, lastCharacter0), results)
    ensures !isLast ==> lastCount > 0
    ensures !isLast ==>
              out + [Run(lastCount, lastCharacter)] == out0 + Join(Pending(lastCount0, lastCharacter0), results)
  {
    out, lastCount, lastCharacter := out0, lastCount0, lastCharacter0;
    ghost var pending := Pending(lastCount0, lastCharacter0);
    for k := 0 to |results|
      invariant k == 0 ==> out == out0
      invariant 0 < k < |results| ==> out == out0 + Join(pending, results[..k])
      invariant k < |results| ==> lastCount == lastCount0 && lastCharacter == lastCharacter0
      invariant k == |results| && isLast ==> out == out0 + Join(pending, results)
      invariant k == |results| && !isLast ==>
                  lastCount > 0 && out + [Run(lastCount, lastCharacter)] == out0 + Join(pending, results)
    {
      var r := results[k];
      if k > 0 {
        JoinFront(pending, results[..k + 1], k);
        assert results[..k + 1][..k] == results[..k] && results[..k + 1][k..] == [r];
      } else {
        assert results[..1] == [r];
      }
      assert k + 1 == |results| ==> results[..k + 1] == results;
      if k == 0 && |results| > 1 {           // first but not last result
        if r.character == lastCharacter {
          out := out + [Run(r.count + lastCount, r.character)];
        } else {
          if lastCount > 0 {
            out := out + [Run(lastCount, lastCharacter)];
          }
          out := out + [r];
        }
      } else if k == |results| - 1 {         // last result
        if k != 0 {
          if isLast {
            out := out + [r];
          } else {
            lastCharacter, lastCount := r.character, r.count;
          }
        } else if r.character == lastCharacter {
          if !isLast {
            lastCount := lastCount + r.count;
          } else {
            out := out + [Run(r.count + lastCount, r.character)];
          }
        } else {
          if lastCount > 0 {
            out := out + [Run(lastCount, lastCharacter)];
          }
          if !isLast {
            lastCharacter, lastCount := r.character, r.count;
          } else {
            out := out + [r];
          }
        }
      } else {
        out := out + [r];
      }
    }
  }

  ghost function Concat(chunks: seq<seq<char>>): seq<char> {
    if chunks == [] then [] else Concat(chunks[..|chunks| - 1]) + chunks[|chunks| - 1]
  }

  /** The final merge of `main`: whatever the page boundaries, the output encodes the whole input. */
  method Merge(ghost chunks: seq<seq<char>>, works: seq<seq<Run>>) returns (out: seq<Run>)
    requires |works| == |chunks|
    requires forall i :: 0 <= i < |chunks| ==> chunks[i] != [] && Encodes(works[i], chunks[i])
    ensures Encodes(out, Concat(chunks))
  {
    hide Join, Expand, Canonical;
    EmptyEncodes();
    var lastCount, lastCharacter := 0, NUL;
    out := [];
    for i := 0 to |works|
      invariant i == 0 ==> lastCount == 0 && lastCharacter == NUL && out == []
      invariant 0 < i < |works| ==> lastCount > 0 && Encodes(out + [Run(lastCount, lastCharacter)], Concat(chunks[..i]))
      invariant i == |works| ==> Encodes(out, Concat(chunks[..i]))
    {
      ghost var before := out + Pending(lastCount, lastCharacter);
      NonEmpty(works[i], chunks[i]);
      assert i == 0 ==> before == [] && chunks[..i] == [];
      assert Encodes(before, Concat(chunks[..i]));
      JoinEncodes(before, Concat(chunks[..i]), works[i], chunks[i]);
      assert chunks[..i + 1][..i] == chunks[..i];
      JoinPrefix(out, Pending(lastCount, lastCharacter), works[i]);
      out, lastCount, lastCharacter := MergeChunk(works[i], i == |works| - 1, out, lastCount, lastCharacter);
    }
    assert chunks[..|chunks|] == chunks;
  }

  lemma {:induction false} ConcatAppend(x: seq<seq<char>>, y: seq<seq<char>>)
    ensures Concat(x + y) == Concat(x) + Concat(y)
  {
    if y == [] {
      assert x + y == x;
    } else {
      var n := |y| - 1;
      ConcatAppend(x, y[..n]);
      assert (x + y)[..|x| + n] == x + y[..n];
    }
  }

  // ---------------------------------------------------------------- cutting the files

  /** The slots `main` reserves, counted at line 208. */
  function Reserved(files: seq<seq<char>>, page: nat): nat
    requires page > 0
  {
    if files == [] then 0 else Reserved(files[..|files| - 1], page) + |files[|files| - 1]| / page + 1
  }

  /** The job loop for one file: pages of `page` bytes, the last one possibly shorter. */
  method CutFile(file: seq<char>, page: nat) returns (works: seq<seq<char>>)
    requires page > 0
    ensures Concat(works) == file
    ensures forall i :: 0 <= i < |works| ==> works[i] != [] && |works[i]| <= page
    ensures |works| == |file| / page + (if |file| % page == 0 then 0 else 1)
  {
    works := [];
    var offset := 0;
    while offset < |file|
      invariant offset == |works| * page
      invariant offset <= |file| ==> Concat(works) == file[..offset]
      invariant offset > |file| ==> Concat(works) == file
      invariant forall i :: 0 <= i < |works| ==> works[i] != [] && |works[i]| <= page
      invariant |works| > 0 ==> (|works| - 1) * page < |file|
      decreases |file| - offset
    {
      var chunkSize := page;
      if offset + page > |file| {
        chunkSize := |file| - offset;
      }
      var chunk := file[offset..offset + chunkSize];
      ghost var before := works;
      works := works + [chunk];
      assert works[..|works| - 1] == before;
      assert file[..offset] + chunk == file[..offset + chunkSize];
      offset := offset + page;
      assert |works| * page == |before| * page + page;
    }
    PageCount(|file|, page, |works|);
    assert offset == |file| ==> file[..offset] == file;
  }

  /** ceil(size / page) pages cover `size` bytes. */
  lemma PageCount(size: nat, page: nat, k: nat)
    requires page > 0 && size <= k * page && (k > 0 ==> (k - 1) * page < size)
    ensures k == size / page + (if size % page == 0 then 0 else 1)
  {
    var q, r := size / page, size % page;
    assert size == q * page + r;
    assert (k + 1) * page == k * page + page && (q + 1) * page == q * page + page;
    InOrder(k + 1, q, page);
    InOrder(q + 1, k - 1, page);
  }

  lemma InOrder(a: int, b: int, page: nat)
    ensures a <= b ==> a * page <= b * page
  {
  }

  /** The job loop: the filled slots, in order. */
  method CutFiles(files: seq<seq<char>>, page: nat) returns (works: seq<seq<char>>)
    requires page > 0
    ensures Concat(works) == Concat(files)
    ensures forall i :: 0 <= i < |works| ==> works[i] != []
    ensures |works| <= Reserved(files, page)
    ensures |works| == Reserved(files, page) <==> forall i :: 0 <= i < |files| ==> |files[i]| % page != 0
  {
    works := [];
    for i := 0 to |files|
      invariant Concat(works) == Concat(files[..i])
      invariant forall k :: 0 <= k < |works| ==> works[k] != []
      invariant |works| <= Reserved(files[..i], page)
      invariant |works| == Reserved(files[..i], page) <==> forall k :: 0 <= k < i ==> |files[k]| % page != 0
    {
      assert files[..i + 1][..i] == files[..i];
      var pages := CutFile(files[i], page);
      ConcatAppend(works, pages);
      works := works + pages;
    }
    assert files[..|files|] == files;
  }

  /**
   The whole program. The merge runs over all reserved slots; None stands for its reading one that was never
   filled, which happens exactly if some file size is a multiple of the page size. Otherwise it writes
   the encoding of all files together.
   */
  method CompressFiles(files: seq<seq<char>>, page: nat) returns (out: Option<seq<Run>>)
    requires page > 0
    ensures out.None? <==> exists i :: 0 <= i < |files| && |files[i]| % page == 0
    ensures out.Some? ==> Encodes(out.value, Concat(files))
  {
    var works := CutFiles(files, page);
    var chunks := Reserved(files, page);
    if |works| < chunks {
      return None;
    }
    var results: seq<seq<Run>> := [];
    for i := 0 to |works|
      invariant |results| == i
      invariant forall k :: 0 <= k < i ==> Encodes(results[k], works[k])
    {
      var r := Compress(works[i]);
      results := results + [r];
    }
    var merged := Merge(works, results);
    out := Some(merged);
  }
}
