/**
 * The references list of the chat page (streamlit_app.py): each retrieved
 * chunk's source label is cut at the first " - Page" to recover the
 * document name, and the names are shown once each, in ascending order.
 */
module App {
  import opened Results
  import opened Text
  import opened Retriever

  /** What `split(" - Page")[0]` cuts at. */
  const PageMarker := " - Page"

  /** `source.split(" - Page")[0]`: the text before the first marker, or all of it when there is none. */
  function DocName(source: string): string {
    match Find(source, PageMarker)
    case Some(i) => source[..i]
    case None => source
  }

  /**
   * The document name is a prefix of the label that contains no marker; it
   * is the whole label exactly when the label has no marker, and otherwise
   * the marker follows it directly.
   */
  lemma DocNameSpec(source: string)
    ensures var name := DocName(source);
      && name <= source
      && !Contains(name, PageMarker)
      && (name == source <==> !Contains(source, PageMarker))
      && (name != source ==> OccursAt(source, PageMarker, |name|))
  {
    var name := DocName(source);
    match Find(source, PageMarker)
    case None =>
    case Some(i) =>
      forall j: nat ensures !OccursAt(name, PageMarker, j) {
        if j + |PageMarker| <= i {
          assert !OccursAt(source, PageMarker, j);
          assert name[j..j + |PageMarker|] == source[j..j + |PageMarker|];
        }
      }
  }

  /**
   * The marker cannot start inside `name` and run into a following text
   * that begins with " -": " - Page" has no " -" after its start.
   */
  lemma NoStraddle(name: string, tail: string, j: nat)
    requires j < |name| < j + |PageMarker|
    requires |tail| >= 2 && tail[0] == ' ' && tail[1] == '-'
    ensures !OccursAt(name + tail, PageMarker, j)
  {
    var l, m := name + tail, |name|;
    if j + |PageMarker| <= |l| {
      var w := l[j..j + |PageMarker|];
      assert w[m - j] == tail[0];
      if m - j + 1 < |w| {
        assert w[m - j + 1] == tail[1];
      }
    }
  }

  /** A name free of the marker, followed by the marker, is cut back to the name. */
  lemma CutAtMarker(name: string, tail: string)
    requires !Contains(name, PageMarker) && PageMarker <= tail
    ensures DocName(name + tail) == name
  {
    var l, m := name + tail, |name|;
    assert l[m..m + |PageMarker|] == tail[..|PageMarker|];
    assert OccursAt(l, PageMarker, m);
    forall j: nat | j < m ensures !OccursAt(l, PageMarker, j) {
      if j + |PageMarker| <= m {
        assert !OccursAt(name, PageMarker, j);
        assert l[j..j + |PageMarker|] == name[j..j + |PageMarker|];
      } else {
        NoStraddle(name, tail, j);
      }
    }
    assert Find(l, PageMarker) == Some(m);
    assert l[..m] == name;
  }

  /**
   * A label the loader writes gives back the file name, provided the file
   * name does not itself contain the marker.
   */
  lemma LabelRoundTrip(name: string, pageNo: nat)
    requires !Contains(name, PageMarker)
    ensures DocName(Label(name, pageNo)) == name
  {
    var tail := " - Page " + Decimal(pageNo);
    assert Label(name, pageNo) == name + tail;
    assert tail[..|PageMarker|] == PageMarker;
    CutAtMarker(name, tail);
  }

  /** `[chunk['source'].split(" - Page")[0] for chunk in retrieved_chunks]`. */
  function DocNames(chunks: seq<Chunk>): (names: seq<string>)
    ensures |names| == |chunks|
    ensures forall i :: 0 <= i < |chunks| ==> names[i] == DocName(chunks[i].source)
  {
    if chunks == [] then [] else [DocName(chunks[0].source)] + DocNames(chunks[1..])
  }

  // ---------------------------------------------------------------------------
  // sorted(set(names))

  /** Strictly ascending in code-point order, hence without repeats. */
  predicate Ascending(xs: seq<string>) {
    forall i, j :: 0 <= i < j < |xs| ==> Below(xs[i], xs[j])
  }

  /** Places `x` into the ascending list `xs`, unless it is already there. */
  function Insert(x: string, xs: seq<string>): seq<string> {
    if xs == [] then [x]
    else if x == xs[0] then xs
    else if Below(x, xs[0]) then [x] + xs
    else [xs[0]] + Insert(x, xs[1..])
  }

  /** `sorted(set(xs))`. */
  function SortedUnique(xs: seq<string>): seq<string> {
    if xs == [] then [] else Insert(xs[|xs| - 1], SortedUnique(xs[..|xs| - 1]))
  }

  lemma {:induction false} InsertSpec(x: string, xs: seq<string>)
    requires Ascending(xs)
    ensures Ascending(Insert(x, xs))
    ensures forall y :: y in Insert(x, xs) <==> y == x || y in xs
    ensures |Insert(x, xs)| <= |xs| + 1
    decreases |xs|
  {
    if xs != [] && x != xs[0] && !Below(x, xs[0]) {
      var t := xs[1..];
      assert Ascending(t) by {
        forall i, j | 0 <= i < j < |t| ensures Below(t[i], t[j]) {
          assert t[i] == xs[i + 1] && t[j] == xs[j + 1];
        }
      }
      InsertSpec(x, t);
      BelowTotal(x, xs[0]);
      var r := Insert(x, xs);
      assert r == [xs[0]] + Insert(x, t);
      forall i, j | 0 <= i < j < |r| ensures Below(r[i], r[j]) {
        if i == 0 {
          assert r[j] in Insert(x, t);
          if r[j] != x {
            var k :| 0 <= k < |t| && t[k] == r[j];
            assert xs[k + 1] == r[j];
          }
        }
      }
      assert xs == [xs[0]] + t;
    } else if xs != [] && x != xs[0] {
      var r := Insert(x, xs);
      forall i, j | 0 <= i < j < |r| ensures Below(r[i], r[j]) {
        if i == 0 && j > 1 {
          BelowTransitive(x, xs[0], xs[j - 1]);
        }
      }
    }
  }

  /** The result of `sorted(set(xs))`: ascending, with exactly the members of `xs`, and no longer than `xs`. */
  lemma {:induction false} SortedUniqueSpec(xs: seq<string>)
    ensures Ascending(SortedUnique(xs))
    ensures forall y :: y in SortedUnique(xs) <==> y in xs
    ensures |SortedUnique(xs)| <= |xs|
    decreases |xs|
  {
    if xs != [] {
      var init := xs[..|xs| - 1];
      SortedUniqueSpec(init);
      InsertSpec(xs[|xs| - 1], SortedUnique(init));
      assert xs == init + [xs[|xs| - 1]];
    }
  }

  /**
   * There is only one ascending list with given members, so the model's
   * `SortedUnique` is the list `sorted(set(xs))` produces, however the set
   * happens to be iterated.
   */
  lemma {:induction false} AscendingUnique(a: seq<string>, b: seq<string>)
    requires Ascending(a) && Ascending(b)
    requires forall y :: y in a <==> y in b
    ensures a == b
    decreases |a|
  {
    if a != [] {
      assert a[0] in a;
    }
    if b != [] {
      assert b[0] in b;
    }
    if a != [] && b != [] {
      if a[0] != b[0] {
        var k :| 0 <= k < |b| && b[k] == a[0];
        var l :| 0 <= l < |a| && a[l] == b[0];
        assert Below(b[0], a[0]) && Below(a[0], b[0]);
        BelowAsymmetric(a[0], b[0]);
        assert false;
      }
      var ta, tb := a[1..], b[1..];
      forall y ensures y in ta <==> y in tb {
        if y in ta {
          var i :| 0 <= i < |ta| && ta[i] == y;
          assert Below(a[0], a[i + 1]);
          BelowIrreflexive(y);
          assert y in b;
        }
        if y in tb {
          var i :| 0 <= i < |tb| && tb[i] == y;
          assert Below(b[0], b[i + 1]);
          BelowIrreflexive(y);
          assert y in a;
        }
      }
      assert Ascending(ta) by {
        forall i, j | 0 <= i < j < |ta| ensures Below(ta[i], ta[j]) {
          assert ta[i] == a[i + 1] && ta[j] == a[j + 1];
        }
      }
      assert Ascending(tb) by {
        forall i, j | 0 <= i < j < |tb| ensures Below(tb[i], tb[j]) {
          assert tb[i] == b[i + 1] && tb[j] == b[j + 1];
        }
      }
      AscendingUnique(ta, tb);
      assert a == [a[0]] + ta && b == [b[0]] + tb;
    }
  }

  /** `unique_docs`: the distinct document names of the retrieved chunks, ascending. */
  function UniqueDocs(chunks: seq<Chunk>): seq<string> {
    SortedUnique(DocNames(chunks))
  }

  /** Every reference listed names a retrieved chunk's document, every retrieved chunk's document is listed, once. */
  lemma UniqueDocsSpec(chunks: seq<Chunk>, name: string)
    ensures Ascending(UniqueDocs(chunks))
    ensures |UniqueDocs(chunks)| <= |chunks|
    ensures name in UniqueDocs(chunks) <==> exists i :: 0 <= i < |chunks| && DocName(chunks[i].source) == name
  {
    var names := DocNames(chunks);
    SortedUniqueSpec(names);
    if name in names {
      var i :| 0 <= i < |names| && names[i] == name;
      assert DocName(chunks[i].source) == name;
    }
  }

  /**
   * For chunks drawn from the loaded and split documents, every listed
   * reference is the name of a PDF file of the document folder, provided no
   * file name contains the marker.
   */
  lemma ReferencesAreFiles(files: seq<SourceFile>, size: nat, overlap: nat, c: Chunk)
    requires overlap < size
    requires forall k :: 0 <= k < |files| ==> !Contains(files[k].name, PageMarker)
    requires c in ChunkAll(LoadAll(files), size, overlap)
    ensures exists k :: 0 <= k < |files| && IsPdf(files[k].name) && DocName(c.source) == files[k].name
  {
    var pages := LoadAll(files);
    ChunkAllMembers(pages, size, overlap, c);
    var d :| 0 <= d < |pages| && c in PageChunks(pages[d], size, overlap);
    PageChunkProvenance(pages[d], size, overlap, c);
    LoadAllMembers(files, pages[d]);
    var k, j :| IsFileRecord(files, k, j, pages[d]);
    LabelRoundTrip(files[k].name, j + 1);
  }
}
