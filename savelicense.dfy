/**
 * The whole run: every file is read, its licence blocks extracted and merged
 * into one set of distinct texts, one progress event per block is reported,
 * and the set's texts, separated by blank lines, are what gets written.
 */
module SaveLicense {
  import opened Wrappers
  import opened Comments
  import opened Licences
  import opened FileLicences
  import opened Preview
  import opened Aggregate

  /** Whether a block's text was new to the set or already in it. */
  datatype Op = Add | Merge

  /** One progress line: file, line and 1-based column of the block, preview of its text, operation. */
  datatype Event = Event(file: string, line: int, column: int, preview: string, op: Op)

  /** A licence block together with the file it was found in. */
  datatype FileBlock = FileBlock(file: string, block: seq<Comment>)

  /** Why a run was aborted: a file could not be read, or its text could not be parsed. */
  datatype Error = Unreadable(file: string) | Unparseable(file: string)

  /** What a finished run produces: its events, and the output file with its text and the number of texts. */
  datatype Report = Report(events: seq<Event>, outFile: string, output: string, count: nat)

  /** Reading a file: its text, or `None` when it cannot be read. */
  type Reader = string -> Option<string>

  function Tag(file: string, gs: seq<seq<Comment>>): (r: seq<FileBlock>)
    ensures |r| == |gs| && forall k :: 0 <= k < |gs| ==> r[k] == FileBlock(file, gs[k])
  {
    seq(|gs|, k requires 0 <= k < |gs| => FileBlock(file, gs[k]))
  }

  /**
   * The licence blocks of all files, file after file, or the error of the
   * first file that cannot be read or parsed.
   */
  function CollectBlocks(files: seq<string>, read: Reader, parse: Parser, patterns: seq<Pattern>)
    : (r: Result<seq<FileBlock>, Error>)
    ensures r.Success? ==> forall k :: 0 <= k < |r.value| ==> IsLicense(r.value[k].block, patterns)
    decreases |files|
  {
    if files == [] then Success([])
    else
      match CollectBlocks(files[..|files| - 1], read, parse, patterns)
      case Failure(e) => Failure(e)
      case Success(bs) =>
        var file := files[|files| - 1];
        match read(file)
        case None => Failure(Unreadable(file))
        case Some(code) =>
          match LicenceBlocks(code, parse, patterns)
          case None => Failure(Unparseable(file))
          case Some(ls) => Success(bs + Tag(file, ls))
  }

  /** Once the files so far contain a failing one, the run fails with its error. */
  lemma {:induction false} CollectFailureStays(files: seq<string>, i: nat, read: Reader, parse: Parser, patterns: seq<Pattern>)
    requires i <= |files| && CollectBlocks(files[..i], read, parse, patterns).Failure?
    ensures CollectBlocks(files, read, parse, patterns) == CollectBlocks(files[..i], read, parse, patterns)
    decreases |files| - i
  {
    if i < |files| {
      assert files[..i + 1][..i] == files[..i];
      CollectFailureStays(files, i + 1, read, parse, patterns);
    } else {
      assert files[..i] == files;
    }
  }

  /** The licence texts of the blocks, in order. */
  function Texts(bs: seq<FileBlock>): (r: seq<string>)
    ensures |r| == |bs| && forall k :: 0 <= k < |bs| ==> r[k] == BlockText(bs[k].block)
  {
    seq(|bs|, k requires 0 <= k < |bs| => BlockText(bs[k].block))
  }

  predicate NonEmptyBlocks(bs: seq<FileBlock>) {
    forall k :: 0 <= k < |bs| ==> |bs[k].block| > 0
  }

  /**
   * The event reported for the `k`-th block: where its first comment starts,
   * the preview of its text, and `Merge` exactly when an earlier block had the
   * same text.
   */
  function EventAt(bs: seq<FileBlock>, k: int): Event
    requires 0 <= k < |bs| && |bs[k].block| > 0
  {
    var start := bs[k].block[0];
    var text := Texts(bs)[k];
    Event(bs[k].file, start.line, 1 + start.column, PreviewText(text),
          if text in Texts(bs)[..k] then Merge else Add)
  }

  lemma EventAtPrefix(bs: seq<FileBlock>, b: FileBlock, k: int)
    requires 0 <= k < |bs| && |bs[k].block| > 0
    ensures EventAt(bs + [b], k) == EventAt(bs, k)
  {
    assert Texts(bs + [b])[..k] == Texts(bs)[..k];
  }

  /**
   * A block is reported as added exactly when it makes the set of distinct
   * texts grow, and then by one text.
   */
  lemma EventOpIsGrowth(bs: seq<FileBlock>, k: int)
    requires 0 <= k < |bs| && |bs[k].block| > 0
    ensures EventAt(bs, k).op == Add <==> |Dedup(Texts(bs[..k + 1]))| == |Dedup(Texts(bs[..k]))| + 1
    ensures EventAt(bs, k).op == Merge <==> Dedup(Texts(bs[..k + 1])) == Dedup(Texts(bs[..k]))
  {
    var texts := Texts(bs);
    assert Texts(bs[..k + 1]) == Texts(bs[..k]) + [texts[k]];
    assert Texts(bs[..k]) == texts[..k];
    DedupStep(texts[..k], texts[k]);
  }

  /**
   * The same licence text in blocks of two files: the first block is reported
   * as added, the second as merged, and the set holds one text.
   */
  lemma SameTextTwoFiles(f1: string, g1: seq<Comment>, f2: string, g2: seq<Comment>)
    requires |g1| > 0 && |g2| > 0 && BlockText(g1) == BlockText(g2)
    ensures var bs := [FileBlock(f1, g1), FileBlock(f2, g2)];
            EventAt(bs, 0).op == Add && EventAt(bs, 1).op == Merge && |Dedup(Texts(bs))| == 1
  {
    var bs := [FileBlock(f1, g1), FileBlock(f2, g2)];
    assert Texts(bs) == [BlockText(g1), BlockText(g1)];
    assert Texts(bs)[..1] == [BlockText(g1)];
    SameTextTwice(BlockText(g1));
  }

  /** Earlier events stay as they were when a block is appended. */
  lemma EventsPrefix(done: seq<FileBlock>, b: FileBlock, events: seq<Event>)
    requires NonEmptyBlocks(done)
    requires |events| == |done| && forall k :: 0 <= k < |done| ==> events[k] == EventAt(done, k)
    ensures forall k :: 0 <= k < |done| ==> events[k] == EventAt(done + [b], k)
  {
    forall k | 0 <= k < |done| ensures events[k] == EventAt(done + [b], k) {
      EventAtPrefix(done, b, k);
    }
  }

  /** The blocks processed so far, the set and the events agree. */
  ghost predicate Merged(done: seq<FileBlock>, elements: seq<string>, events: seq<Event>) {
    && NonEmptyBlocks(done)
    && NoDuplicates(elements) && elements == Dedup(Texts(done))
    && |events| == |done|
    && forall k :: 0 <= k < |done| ==> events[k] == EventAt(done, k)
  }

  /**
   * One step of the inner loop keeps them in agreement: the block's text is
   * added when it is not in the set, and its event is appended.
   */
  lemma MergeStep(done: seq<FileBlock>, elements: seq<string>, events: seq<Event>, b: FileBlock,
                   elements': seq<string>, event: Event)
    requires Merged(done, elements, events) && |b.block| > 0
    requires elements' == if BlockText(b.block) in elements then elements else elements + [BlockText(b.block)]
    requires var text := BlockText(b.block);
             event == Event(b.file, b.block[0].line, 1 + b.block[0].column, PreviewText(text),
                            if text in elements then Merge else Add)
    ensures Merged(done + [b], elements', events + [event])
  {
    TextsSnoc(done, b);
    DedupSpec(Texts(done + [b]));
    EventOfLast(done, b);
    EventsSnoc(done, b, events);
  }

  /** Appending a block's event to events that match the blocks before it. */
  lemma EventsSnoc(done: seq<FileBlock>, b: FileBlock, events: seq<Event>)
    requires NonEmptyBlocks(done) && |b.block| > 0
    requires |events| == |done| && forall k :: 0 <= k < |done| ==> events[k] == EventAt(done, k)
    ensures NonEmptyBlocks(done + [b])
    ensures var events' := events + [EventAt(done + [b], |done|)];
            |events'| == |done + [b]| && forall k :: 0 <= k < |done + [b]| ==> events'[k] == EventAt(done + [b], k)
  {
    EventsPrefix(done, b, events);
  }

  lemma TextsSnoc(done: seq<FileBlock>, b: FileBlock)
    ensures Texts(done + [b]) == Texts(done) + [BlockText(b.block)]
    ensures Dedup(Texts(done + [b])) ==
              if BlockText(b.block) in Texts(done) then Dedup(Texts(done)) else Dedup(Texts(done)) + [BlockText(b.block)]
  {
    assert Texts(done + [b]) == Texts(done) + [BlockText(b.block)];
    DedupStep(Texts(done), BlockText(b.block));
  }

  /** The event of an appended block, with its operation read off the texts before it. */
  lemma EventOfLast(done: seq<FileBlock>, b: FileBlock)
    requires |b.block| > 0
    ensures var text := BlockText(b.block);
            EventAt(done + [b], |done|)
              == Event(b.file, b.block[0].line, 1 + b.block[0].column, PreviewText(text),
                       if text in Dedup(Texts(done)) then Merge else Add)
  {
    assert Texts(done + [b])[..|done|] == Texts(done);
    DedupSpec(Texts(done));
  }

  /**
   * The inner loop of the run: the blocks of one file are looked up in the set,
   * added when new, and reported, one event each.
   */
  method MergeFileBlocks(file: string, ls: seq<seq<Comment>>, licenseSet: LicenseSet, events0: seq<Event>, ghost bs: seq<FileBlock>)
    returns (events: seq<Event>)
    requires forall j :: 0 <= j < |ls| ==> |ls[j]| > 0
    requires Merged(bs, licenseSet.elements, events0)
    modifies licenseSet
    ensures Merged(bs + Tag(file, ls), licenseSet.elements, events)
  {
    events := events0;
    ghost var done := bs;
    assert bs + Tag(file, ls[..0]) == bs;
    for j := 0 to |ls|
      invariant done == bs + Tag(file, ls[..j])
      invariant Merged(done, licenseSet.elements, events)
    {
      events := MergeBlock(file, ls[j], licenseSet, events, done);
      TagSnoc(bs, file, ls, j);
      done := done + [FileBlock(file, ls[j])];
    }
    assert ls[..|ls|] == ls;
  }

  /**
   * One licence block: its text is looked up in the set and added when new, and
   * its event, with the preview of the text, is appended.
   */
  method MergeBlock(file: string, block: seq<Comment>, licenseSet: LicenseSet, events0: seq<Event>, ghost done: seq<FileBlock>)
    returns (events: seq<Event>)
    requires |block| > 0
    requires Merged(done, licenseSet.elements, events0)
    modifies licenseSet
    ensures Merged(done + [FileBlock(file, block)], licenseSet.elements, events)
  {
    ghost var elements0 := licenseSet.elements;
    var text := BlockText(block);
    var hasText := licenseSet.Has(text);
    if !hasText {
      licenseSet.Add(text);
    }
    var start := block[0];
    var head := Head(text);
    var event := Event(file, start.line, 1 + start.column,
                       Escape(head) + (if |head| == |text| then "" else "..."),
                       if hasText then Merge else Add);
    events := events0 + [event];
    MergeStep(done, elements0, events0, FileBlock(file, block), licenseSet.elements, event);
  }

  lemma TagSnoc(bs: seq<FileBlock>, file: string, ls: seq<seq<Comment>>, j: int)
    requires 0 <= j < |ls|
    ensures bs + Tag(file, ls[..j + 1]) == bs + Tag(file, ls[..j]) + [FileBlock(file, ls[j])]
  {
    assert Tag(file, ls[..j + 1]) == Tag(file, ls[..j]) + [FileBlock(file, ls[j])];
  }

  /**
   * The run. Files are processed in order; each licence block's text is looked
   * up in the set, added when new, and reported; the set's texts joined by a
   * blank line are the output. The first unreadable or unparseable file aborts
   * the run and nothing is written.
   */
  method SaveLicense(files: seq<string>, outFile: string, read: Reader, parse: Parser, patterns: seq<Pattern>)
    returns (r: Result<Report, Error>)
    ensures CollectBlocks(files, read, parse, patterns).Failure? ==>
              r == Failure(CollectBlocks(files, read, parse, patterns).error)
    ensures CollectBlocks(files, read, parse, patterns).Success? ==>
              var bs := CollectBlocks(files, read, parse, patterns).value;
              var texts := Texts(bs);
              && r.Success?
              && r.value.outFile == outFile
              && r.value.output == Join(Dedup(texts), "\n\n")
              && r.value.count == |Dedup(texts)|
              && |r.value.events| == |bs|
              && forall k :: 0 <= k < |bs| ==> r.value.events[k] == EventAt(bs, k)
  {
    var licenseSet := new LicenseSet();
    var events: seq<Event> := [];
    ghost var bs: seq<FileBlock> := [];
    for i := 0 to |files|
      invariant fresh(licenseSet)
      invariant CollectBlocks(files[..i], read, parse, patterns) == Success(bs)
      invariant Merged(bs, licenseSet.elements, events)
    {
      var file := files[i];
      assert files[..i + 1][..i] == files[..i] && files[..i + 1][i] == file;
      var code := read(file);
      if code.None? {
        CollectFailureStays(files, i + 1, read, parse, patterns);
        return Failure(Unreadable(file));
      }
      var licenses := GetLicences(code.value, parse, patterns);
      if licenses.None? {
        CollectFailureStays(files, i + 1, read, parse, patterns);
        return Failure(Unparseable(file));
      }
      events := MergeFileBlocks(file, licenses.value, licenseSet, events, bs);
      bs := bs + Tag(file, licenses.value);
    }
    assert files[..|files|] == files;
    r := Success(Report(events, outFile, Join(licenseSet.elements, "\n\n"), licenseSet.Size()));
  }
}
