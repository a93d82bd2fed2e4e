/** A whole LDIF export: pages of entries reordered as they arrive and written through a
    buffered writer that stops at the first error. */
module Export {
  import opened Base64
  import opened Ldif
  import opened ParentFirst
  import opened ExportText

  /** The writer: a buffer in front of a destination that takes `capacity` bytes before it
      fails. The first error is kept, and every later write is skipped. */
  class LdifWriter {
    const size: nat
    const capacity: nat
    /** What the destination has taken, and what waits in the buffer. */
    var out: Bytes
    var pending: Bytes
    var failed: bool
    var room: nat
    /** What the calls so far asked for. */
    ghost var full: Bytes

    ghost predicate Buffered()
      reads this
    {
      0 < size && |pending| <= size && |out| + room == capacity && (failed ==> room == 0)
    }

    /** Until it fails nothing is lost; once it has, the file is short of what was asked. */
    ghost predicate Valid()
      reads this
    {
      Buffered() && if failed then out < full else out + pending == full
    }

    constructor (size: nat, capacity: nat)
      requires 0 < size
      ensures Valid() && full == [] && !failed && this.size == size && this.capacity == capacity
    {
      this.size, this.capacity, out, pending, full, failed, room := size, capacity, [], [], [], false, capacity;
    }

    /** Hands the buffer to the destination; anything less than all of it is an error. */
    method FlushBuffer()
      requires Buffered() && !failed
      modifies `out, `pending, `failed, `room
      ensures Buffered()
      ensures if failed then old(out) <= out < old(out + pending) else out == old(out + pending) && pending == []
    {
      if |pending| <= room {
        out, room, pending := out + pending, room - |pending|, [];
      } else {
        out, room, failed := out + pending[..room], 0, true;
      }
    }

    method WriteString(text: Bytes)
      requires Buffered() && !failed
      modifies `out, `pending, `failed, `room
      ensures Buffered()
      ensures if failed then out < old(out + pending) + text else out + pending == old(out + pending) + text
    {
      var s := text;
      while |s| > size - |pending|
        invariant Buffered() && !failed && out + pending + s == old(out + pending) + text
        decreases |s|, |pending|
      {
        var n := size - |pending|;
        ghost var before := out + pending + s;
        pending, s := pending + s[..n], s[n..];
        assert before == out + pending + s;
        FlushBuffer();
        if failed {
          return;
        }
      }
      pending := pending + s;
    }

    /** One logical line, folded. */
    method Line(line: Bytes)
      requires Valid()
      modifies this
      ensures Valid() && full == old(full) + Fold(line)
      ensures old(failed) ==> failed && out == old(out)
    {
      full := full + Fold(line);
      if failed {
        return;
      }
      var s := line;
      while |s| > WIDTH
        invariant Buffered() && !failed && full == out + pending + Fold(s)
        invariant full == old(full) + Fold(line)
        decreases |s|
      {
        ghost var before := out + pending;
        WriteString(s[..WIDTH] + [LF, SPACE]);
        Onwards(before, s[..WIDTH] + [LF, SPACE], Fold(s[WIDTH..]), out);
        if failed {
          return;
        }
        s := s[WIDTH..];
      }
      WriteString(s + [LF]);
    }

    /** What the caller checks: whether every byte asked for reached the destination. */
    method Flush()
      requires Valid()
      modifies this
      ensures Valid() && full == old(full)
      ensures !failed ==> out == full
    {
      if !failed {
        FlushBuffer();
      }
    }

    method Comment(text: Bytes)
      requires Valid()
      modifies this
      ensures Valid() && full == old(full) + Fold(CommentLine(text))
    {
      Line([HASH, SPACE] + text);
    }

    /** One line for each value of an attribute. */
    method Values(name: Bytes, values: seq<Bytes>)
      requires Valid()
      modifies this
      ensures Valid() && full == old(full) + Physical(ValueLines(Named(name, values)))
    {
      for j := 0 to |values|
        invariant Valid() && full == old(full) + Physical(ValueLines(Named(name, values[..j])))
      {
        Line(AttrValue(name, values[j]));
        NextValue(old(full), name, values, j);
      }
      assert values[..|values|] == values;
    }

    method Attributes(attributes: seq<Attribute>)
      requires Valid()
      modifies this
      ensures Valid() && full == old(full) + Physical(ValueLines(Flatten(attributes)))
    {
      for i := 0 to |attributes|
        invariant Valid() && full == old(full) + Physical(ValueLines(Flatten(attributes[..i])))
      {
        Values(attributes[i].name, attributes[i].values);
        NextAttribute(old(full), attributes, i);
      }
      assert attributes[..|attributes|] == attributes;
    }

    /** The dn, one line per value of each attribute, and the blank line that ends it. */
    method Entry(r: Record)
      requires Valid()
      modifies this
      ensures Valid() && full == old(full) + Physical(RecordLines(FlatRecord(r)))
    {
      Line(AttrValue(DN, r.dn));
      Attributes(r.attributes);
      Line([]);
      WholeRecord(old(full), FlatRecord(r));
    }
  }

  lemma Onwards(before: Bytes, part: Bytes, rest: Bytes, out: Bytes)
    ensures before + part + rest == before + (part + rest)
    ensures out < before + part ==> out < before + part + rest
  {
  }

  method WriteComments(w: LdifWriter, texts: seq<Bytes>)
    requires w.Valid()
    modifies w
    ensures w.Valid() && w.full == old(w.full) + Physical(CommentLinesOf(texts))
  {
    for i := 0 to |texts|
      invariant w.Valid() && w.full == old(w.full) + Physical(CommentLinesOf(texts[..i]))
    {
      w.Comment(texts[i]);
      PhysicalAppend(CommentLinesOf(texts[..i]), [CommentLine(texts[i])]);
      OneLine(CommentLine(texts[i]));
      assert CommentLinesOf(texts[..i + 1]) == CommentLinesOf(texts[..i]) + [CommentLine(texts[i])];
    }
    assert texts[..|texts|] == texts;
  }

  method WriteEntries(w: LdifWriter, order: seq<Entry>)
    requires w.Valid()
    modifies w
    ensures w.Valid() && w.full == old(w.full) + Physical(AllRecordLines(FlatAll(order)))
  {
    for i := 0 to |order|
      invariant w.Valid() && w.full == old(w.full) + EntriesText(order, i)
    {
      w.Entry(order[i].record);
      EntriesNext(old(w.full), order, i);
    }
    assert order[..|order|] == order;
  }

  method WriteHead(w: LdifWriter, head: seq<Bytes>)
    requires w.Valid() && w.full == []
    modifies w
    ensures w.Valid() && w.full == BodyText(head, [])
  {
    WriteComments(w, head);
    w.Line(AttrValue(VERSION, ONE));
    w.Line([]);
    TwoLines(CommentLinesOf(head), AttrValue(VERSION, ONE), []);
    NoEntries(head);
  }

  method WriteTail(w: LdifWriter, stats: Stats, notes: Notes)
    requires w.Valid()
    modifies w
    ensures w.Valid() && w.full == old(w.full) + TailText(ClosingTexts(stats, notes))
  {
    ghost var tail := ClosingTexts(stats, notes);
    if stats.orphans > 0 {
      w.Comment(notes.orphans(stats.orphans));
      TwoLines([], CommentLine(tail[0]), CommentLine(tail[1]));
      assert CommentLinesOf(tail) == [] + [CommentLine(tail[0]), CommentLine(tail[1])];
    } else {
      OneLine(CommentLine(tail[0]));
      assert CommentLinesOf(tail) == [CommentLine(tail[0])];
    }
    w.Comment(notes.end(stats.entries));
  }

  function Concat(pages: seq<seq<Entry>>): seq<Entry> {
    if pages == [] then [] else Concat(pages[..|pages| - 1]) + pages[|pages| - 1]
  }

  datatype Ending = Complete | SearchFailed | WriteFailed

  /** The pages are those a search answered; `cut` says that the next one fails instead. The
      file is whole exactly when the export says so; otherwise it is a prefix of what would
      have been written, and the counts are those of the moment it stopped. */
  method ExportLdif(subtree: bool, baseDn: Dn, pages: seq<seq<Entry>>, cut: bool, head: seq<Bytes>, notes: Notes, size: nat, capacity: nat)
    returns (file: Bytes, ending: Ending, stats: Stats, ghost seen: nat, ghost order: seq<Entry>)
    requires 0 < size
    ensures seen <= |pages| && (seen == |pages| || ending.WriteFailed?)
    ensures ending.SearchFailed? ==> cut
    ensures ending.Complete? ==> !cut && file == FullText(head, order, ClosingTexts(stats, notes))
    ensures ending.Complete? ==>
              file == BodyText(head, order)
                      + (if stats.orphans > 0 then Fold(CommentLine(notes.orphans(stats.orphans))) else [])
                      + Fold(CommentLine(notes.end(stats.entries)))
    ensures ending.SearchFailed? ==> file <= BodyText(head, order) && (|BodyText(head, order)| <= |file| + size || |file| == capacity)
    ensures ending.WriteFailed? ==> file < FullText(head, order, ClosingTexts(stats, notes)) && |file| == capacity
    ensures Distinctive(head, notes) && (forall e :: e in order ==> ValidNames(e.record)) ==> (ending.Complete? <==> Closes(file, notes))
    ensures ending.Complete? ==> Finished(subtree, DnKey(baseDn), Concat(pages), order, stats)
    ensures ending.SearchFailed? ==> Underway(subtree, DnKey(baseDn), Concat(pages), order, stats)
    ensures ending.WriteFailed? ==>
              || (file < BodyText(head, order) && Underway(subtree, DnKey(baseDn), Concat(pages[..seen]), order, stats))
              || (seen == |pages| && !cut && Finished(subtree, DnKey(baseDn), Concat(pages), order, stats))
  {
    var w := new LdifWriter(size, capacity);
    WriteHead(w, head);
    var reorderer := new Reorderer(subtree, DnKey(baseDn));
    StreamedNone(reorderer.baseKey);
    for i := 0 to |pages|
      invariant w.Valid() && w.full == BodyText(head, reorderer.emitted)
      invariant Receiving(reorderer, Concat(pages[..i]))
      invariant fresh(w) && fresh(reorderer)
    {
      assert pages[..i + 1][..i] == pages[..i];
      WritePage(w, reorderer, Concat(pages[..i]), pages[i], head);
      if w.failed {
        ReceivingIs(reorderer, Concat(pages[..i + 1]));
        order, seen := reorderer.emitted, i + 1;
        EndsWhenComplete(w.out, head, order, Stats(reorderer.count, reorderer.orphaned), notes);
        return w.out, WriteFailed, Stats(reorderer.count, reorderer.orphaned), seen, order;
      }
    }
    assert pages[..|pages|] == pages;
    if cut {
      ReceivingIs(reorderer, Concat(pages));
      order := reorderer.emitted;
      EndsWhenComplete(w.out, head, order, Stats(reorderer.count, reorderer.orphaned), notes);
      return w.out, SearchFailed, Stats(reorderer.count, reorderer.orphaned), |pages|, order;
    }
    stats := WriteRest(w, reorderer, Concat(pages), head, notes);
    order, seen := reorderer.emitted, |pages|;
    EndsWhenComplete(w.out, head, order, stats, notes);
    ClosingRemarks(head, order, stats, notes);
    file, ending := w.out, if w.failed then WriteFailed else Complete;
  }

  /** The entries of one page that can be written, or that it lets go. */
  method WritePage(w: LdifWriter, reorderer: Reorderer, ghost arrived: seq<Entry>, page: seq<Entry>, ghost head: seq<Bytes>)
    requires w.Valid() && w.full == BodyText(head, reorderer.emitted) && Receiving(reorderer, arrived)
    modifies w, reorderer
    ensures w.Valid() && w.full == BodyText(head, reorderer.emitted) && Receiving(reorderer, arrived + page)
  {
    var before := reorderer.emitted;
    AddPage(reorderer, arrived, page);
    WriteEntries(w, reorderer.emitted[|before|..]);
    MoreEntries(head, before, reorderer.emitted);
  }

  /** The entries still held, the closing lines, and the check that all of it went out. */
  method WriteRest(w: LdifWriter, reorderer: Reorderer, ghost arrival: seq<Entry>, ghost head: seq<Bytes>, notes: Notes)
    returns (stats: Stats)
    requires w.Valid() && w.full == BodyText(head, reorderer.emitted) && Receiving(reorderer, arrival)
    modifies w, reorderer
    ensures w.Valid() && w.full == FullText(head, reorderer.emitted, ClosingTexts(stats, notes))
    ensures !w.failed ==> w.out == w.full
    ensures Finished(reorderer.subtree, reorderer.baseKey, arrival, reorderer.emitted, stats)
  {
    var before := reorderer.emitted;
    Finish(reorderer, arrival);
    stats := Stats(reorderer.count, reorderer.orphaned);
    WriteEntries(w, reorderer.emitted[|before|..]);
    MoreEntries(head, before, reorderer.emitted);
    WriteTail(w, stats, notes);
    w.Flush();
    FullIs(head, reorderer.emitted, ClosingTexts(stats, notes));
  }
}
