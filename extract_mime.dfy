/**
 * Extracting a message's attachments into a directory: the time a message
 * was received, the names tried for each attachment (`name`, `name.1`,
 * `name.2`, ...), and the content comparison that keeps a second copy of the
 * same attachment from being written.  The directory is a map from paths to
 * contents (a SHA-1 digest match stands for equal contents) and to
 * modification times.
 */
module ExtractMime {

  import opened Outcome
  import opened Text
  import opened Mail
  import Storage

  // ---------------------------------------------------------------- message_time

  /** `split(';', 1)[1]` of a value without `;`, or `mktime` of what `parsedate` could not read. */
  datatype TimeError = IndexError | TypeError

  /**
   * `message_time`: no time without a Received field; otherwise the date after
   * the first `;` of the first Received field, converted by `stamp`
   * (`parsedate` then `mktime`, `None` where `parsedate` gives up).
   */
  function MessageTime(m: Message, stamp: string -> Option<real>): (r: Result<Option<real>, TimeError>)
    ensures Get(m.headers, "Received").None? ==> r == Ok(None)
    ensures Get(m.headers, "Received").Some? && ';' !in Get(m.headers, "Received").value ==> r == Err(IndexError)
    ensures r.Ok? && r.value.Some? ==> Get(m.headers, "Received").Some?
  {
    match Get(m.headers, "Received")
    case None => Ok(None)
    case Some(received) =>
      match Find(received, ';')
      case None => Err(IndexError)
      case Some(k) =>
        match stamp(received[k + 1..])
        case None => Err(TypeError)
        case Some(t) => Ok(Some(t))
  }

  /** The date read is the text after the first `;` of the first Received field. */
  lemma MessageTimeOf(m: Message, stamp: string -> Option<real>, route: string, date: string)
    requires Get(m.headers, "Received") == Some(route + ";" + date) && ';' !in route
    ensures stamp(date).Some? ==> MessageTime(m, stamp) == Ok(stamp(date))
    ensures stamp(date).None? ==> MessageTime(m, stamp) == Err(TypeError)
  {
    var received := route + ";" + date;
    assert received[..|route|] == route;
    FindAt(received, ';', |route|);
    assert received[|route| + 1..] == date;
  }

  // ---------------------------------------------------------------- candidate names

  /** The `k`-th name tried for a file: the name itself, then `name.1`, `name.2`, ... */
  function Candidate(base: string, k: nat): string
  {
    if k == 0 then base else base + "." + NatToString(k)
  }

  /** Different attempts try different names. */
  lemma CandidateInjective(base: string, j: nat, k: nat)
    requires Candidate(base, j) == Candidate(base, k)
    ensures j == k
  {
    if j != 0 && k != 0 {
      var a := Candidate(base, j);
      assert a[|base| + 1..] == NatToString(j);
      assert Candidate(base, k)[|base| + 1..] == NatToString(k);
      NatToStringInjective(j, k);
    }
  }

  /** The first `k` names tried. */
  function Tried(base: string, k: nat): set<string>
  {
    set j | 0 <= j < k :: Candidate(base, j)
  }

  lemma {:induction false} TriedCount(base: string, k: nat)
    ensures |Tried(base, k)| == k
  {
    if k > 0 {
      TriedCount(base, k - 1);
      assert Tried(base, k) == Tried(base, k - 1) + {Candidate(base, k - 1)};
      if Candidate(base, k - 1) in Tried(base, k - 1) {
        var j :| 0 <= j < k - 1 && Candidate(base, j) == Candidate(base, k - 1);
        CandidateInjective(base, j, k - 1);
      }
    }
  }

  /** Only as many names can be taken as there are files. */
  lemma TakenBound(files: map<string, string>, base: string, k: nat)
    requires forall j :: 0 <= j < k ==> Candidate(base, j) in files
    ensures k <= |files.Keys|
  {
    var tried := Tried(base, k);
    TriedCount(base, k);
    assert files.Keys == tried + (files.Keys - tried);
    assert tried * (files.Keys - tried) == {};
  }

  /** The names before the `k`-th are all taken, by files that differ from `payload`. */
  predicate TakenBy(files: map<string, string>, base: string, payload: string, k: nat)
  {
    forall j :: 0 <= j < k ==> Candidate(base, j) in files && files[Candidate(base, j)] != payload
  }

  /**
   * The name `extract_mime`'s search settles on, from the `k`-th on: the first
   * that is free, or the first that already holds `payload` (then `true`).
   */
  function Slot(files: map<string, string>, base: string, payload: string, k: nat): (r: (nat, bool))
    requires TakenBy(files, base, payload, k)
    ensures r.0 >= k && TakenBy(files, base, payload, r.0)
    ensures r.1 <==> Candidate(base, r.0) in files
    ensures r.1 ==> files[Candidate(base, r.0)] == payload
    decreases |files.Keys| - k
  {
    var name := Candidate(base, k);
    if name !in files then (k, false)
    else if files[name] == payload then (k, true)
    else
      TakenBound(files, base, k + 1);
      Slot(files, base, payload, k + 1)
  }

  /** The search stops at the first name that is free or already holds the payload. */
  lemma SlotAt(files: map<string, string>, base: string, payload: string, k: nat)
    requires TakenBy(files, base, payload, k)
    requires Candidate(base, k) !in files || files[Candidate(base, k)] == payload
    ensures Slot(files, base, payload, 0) == (k, Candidate(base, k) in files)
  {
  }

  /** `extract_mime`'s while loop: try names in turn until one is free or holds the same contents. */
  method FindSlot(files: map<string, string>, base: string, payload: string) returns (count: nat, isCopy: bool)
    ensures (count, isCopy) == Slot(files, base, payload, 0)
  {
    count := 0;
    isCopy := false;
    var name := base;
    while name in files
      invariant name == Candidate(base, count) && !isCopy
      invariant TakenBy(files, base, payload, count)
      decreases |files.Keys| - count
    {
      if files[name] == payload {
        isCopy := true;
        break;
      }
      TakenBound(files, base, count + 1);
      count := count + 1;
      name := base + "." + NatToString(count);
    }
    SlotAt(files, base, payload, count);
  }

  // ---------------------------------------------------------------- extract_mime

  /** A directory's files: their contents and their modification times. */
  datatype Tree = Tree(files: map<string, string>, times: map<string, real>)

  /** The parts that are extracted: those with a filename, of the requested type if one is given. */
  predicate Eligible(part: Part, mimeType: Option<string>)
  {
    part.filename.Some? && part.filename.value != "" && (mimeType.None? || part.contentType == mimeType.value)
  }

  /**
   * One part extracted: written under the name the search settles on, unless
   * that name already holds the same contents; the file's time is the
   * message's time when known, else the time of writing.
   */
  function Place(t: Tree, part: Part, output: string, mimeType: Option<string>, time: Option<real>, now: real): Tree
  {
    if !Eligible(part, mimeType) then t
    else
      var base := Storage.PathJoin(output, part.filename.value);
      var (k, isCopy) := Slot(t.files, base, part.payload, 0);
      if isCopy then t
      else
        var name := Candidate(base, k);
        Tree(t.files[name := part.payload], t.times[name := if time.Some? then time.value else now])
  }

  /** The parts extracted in `walk` order. */
  function Extracted(t: Tree, parts: seq<Part>, output: string, mimeType: Option<string>,
                     time: Option<real>, now: real): Tree
  {
    if parts == [] then t
    else Place(Extracted(t, parts[..|parts| - 1], output, mimeType, time, now), parts[|parts| - 1], output, mimeType, time, now)
  }

  /** The disk `extract_mime` writes to. */
  class Disk {
    var files: map<string, string>
    var times: map<string, real>

    constructor (files: map<string, string>, times: map<string, real>)
      ensures this.files == files && this.times == times
    {
      this.files := files;
      this.times := times;
    }

    function State(): Tree
      reads this
    {
      Tree(files, times)
    }

    /** `open(name, 'wb').write(contents)`, then `os.utime` when the message's time is known. */
    method Write(name: string, contents: string, time: Option<real>, now: real)
      modifies this
      ensures files == old(files)[name := contents]
      ensures times == old(times)[name := if time.Some? then time.value else now]
    {
      files := files[name := contents];
      times := times[name := if time.Some? then time.value else now];
    }
  }

  /**
   * `extract_mime`: each eligible part is written under the first free name,
   * unless an earlier name already holds the same contents.  A dry run
   * writes nothing; a Received field that cannot be read fails before
   * anything is written.
   */
  method ExtractMimeParts(m: Message, mimeType: Option<string>, output: string, dryRun: bool,
                          stamp: string -> Option<real>, now: real, disk: Disk)
    returns (r: Result<(), TimeError>)
    modifies disk
    ensures MessageTime(m, stamp).Err? ==> r == Err(MessageTime(m, stamp).error) && disk.State() == old(disk.State())
    ensures MessageTime(m, stamp).Ok? ==> r == Ok(())
    ensures MessageTime(m, stamp).Ok? ==>
              disk.State() == if dryRun then old(disk.State())
                              else Extracted(old(disk.State()), m.parts, output, mimeType, MessageTime(m, stamp).value, now)
  {
    var read := MessageTime(m, stamp);
    if read.Err? {
      return Err(read.error);
    }
    var time := read.value;
    var parts := m.parts;
    for i := 0 to |parts|
      invariant disk.State() == if dryRun then old(disk.State())
                                else Extracted(old(disk.State()), parts[..i], output, mimeType, time, now)
    {
      assert parts[..i + 1][..i] == parts[..i];
      var part := parts[i];
      if part.filename.None? || part.filename.value == "" {
        continue;
      }
      var base := Storage.PathJoin(output, part.filename.value);
      if mimeType.None? || part.contentType == mimeType.value {
        var count, isCopy := FindSlot(disk.files, base, part.payload);
        if isCopy {
          continue;
        }
        if !dryRun {
          disk.Write(Candidate(base, count), part.payload, time, now);
        }
      }
    }
    assert parts[..|parts|] == parts;
    r := Ok(());
  }

  // ---------------------------------------------------------------- properties

  /** Every file of `t` is still in `u` with the same contents. */
  predicate Keeps(t: Tree, u: Tree)
  {
    forall p :: p in t.files ==> p in u.files && u.files[p] == t.files[p]
  }

  /** An existing file is never overwritten. */
  lemma {:induction false} ExtractedKeeps(t: Tree, parts: seq<Part>, output: string, mimeType: Option<string>,
                                          time: Option<real>, now: real)
    ensures Keeps(t, Extracted(t, parts, output, mimeType, time, now))
  {
    if parts != [] {
      ExtractedKeeps(t, parts[..|parts| - 1], output, mimeType, time, now);
    }
  }

  /** A file that was not there before holds the contents of one of the extracted parts. */
  lemma {:induction false} ExtractedFrom(t: Tree, parts: seq<Part>, output: string, mimeType: Option<string>,
                                         time: Option<real>, now: real, p: string)
    requires p in Extracted(t, parts, output, mimeType, time, now).files && p !in t.files
    ensures exists i :: 0 <= i < |parts| && Eligible(parts[i], mimeType) &&
                        Extracted(t, parts, output, mimeType, time, now).files[p] == parts[i].payload
  {
    var n := |parts| - 1;
    var before := Extracted(t, parts[..n], output, mimeType, time, now);
    var u := Extracted(t, parts, output, mimeType, time, now);
    if p in before.files {
      ExtractedKeeps(before, [parts[n]], output, mimeType, time, now);
      assert Extracted(before, [parts[n]], output, mimeType, time, now) == u by {
        assert [parts[n]][..0] == [];
      }
      ExtractedFrom(t, parts[..n], output, mimeType, time, now, p);
      var i :| 0 <= i < n && Eligible(parts[..n][i], mimeType) && before.files[p] == parts[..n][i].payload;
      assert parts[..n][i] == parts[i];
    } else {
      assert Eligible(parts[n], mimeType) && u.files[p] == parts[n].payload;
    }
  }

  /** A part whose contents are already under one of its names: extracting it again writes nothing. */
  predicate Present(t: Tree, part: Part, output: string, mimeType: Option<string>)
  {
    Eligible(part, mimeType) ==>
      Slot(t.files, Storage.PathJoin(output, part.filename.value), part.payload, 0).1
  }

  /** Once a part is present it stays present as files are added. */
  lemma PresentStays(t: Tree, u: Tree, part: Part, output: string, mimeType: Option<string>)
    requires Present(t, part, output, mimeType) && Keeps(t, u)
    ensures Present(u, part, output, mimeType)
  {
    if Eligible(part, mimeType) {
      var base := Storage.PathJoin(output, part.filename.value);
      var k := Slot(t.files, base, part.payload, 0).0;
      SlotAt(u.files, base, part.payload, k);
    }
  }

  /** A part just extracted is present afterwards. */
  lemma PlacePresent(t: Tree, part: Part, output: string, mimeType: Option<string>, time: Option<real>, now: real)
    ensures Present(Place(t, part, output, mimeType, time, now), part, output, mimeType)
  {
    if Eligible(part, mimeType) {
      var base := Storage.PathJoin(output, part.filename.value);
      var (k, isCopy) := Slot(t.files, base, part.payload, 0);
      if !isCopy {
        var u := Place(t, part, output, mimeType, time, now);
        forall j | 0 <= j < k
          ensures Candidate(base, j) in u.files && u.files[Candidate(base, j)] != part.payload
        {
          if Candidate(base, j) == Candidate(base, k) {
            CandidateInjective(base, j, k);
          }
        }
        SlotAt(u.files, base, part.payload, k);
      }
    }
  }

  /** After extraction every extracted part is present. */
  lemma {:induction false} ExtractedPresent(t: Tree, parts: seq<Part>, output: string, mimeType: Option<string>,
                                            time: Option<real>, now: real)
    ensures var u := Extracted(t, parts, output, mimeType, time, now);
            forall i :: 0 <= i < |parts| ==> Present(u, parts[i], output, mimeType)
  {
    if parts != [] {
      var n := |parts| - 1;
      var before := Extracted(t, parts[..n], output, mimeType, time, now);
      var u := Extracted(t, parts, output, mimeType, time, now);
      ExtractedPresent(t, parts[..n], output, mimeType, time, now);
      ExtractedKeeps(before, [parts[n]], output, mimeType, time, now);
      assert Extracted(before, [parts[n]], output, mimeType, time, now) == u by {
        assert [parts[n]][..0] == [];
      }
      forall i | 0 <= i < |parts|
        ensures Present(u, parts[i], output, mimeType)
      {
        if i < n {
          assert parts[..n][i] == parts[i];
          PresentStays(before, u, parts[i], output, mimeType);
        } else {
          PlacePresent(before, parts[n], output, mimeType, time, now);
        }
      }
    }
  }

  /** Parts that are all present are not written again. */
  lemma {:induction false} ExtractedNothing(t: Tree, parts: seq<Part>, output: string, mimeType: Option<string>,
                                            time: Option<real>, now: real)
    requires forall i :: 0 <= i < |parts| ==> Present(t, parts[i], output, mimeType)
    ensures Extracted(t, parts, output, mimeType, time, now) == t
  {
    if parts != [] {
      var n := |parts| - 1;
      forall i | 0 <= i < n
        ensures Present(t, parts[..n][i], output, mimeType)
      {
        assert parts[..n][i] == parts[i];
      }
      ExtractedNothing(t, parts[..n], output, mimeType, time, now);
      assert Present(t, parts[n], output, mimeType);
    }
  }

  /** Extracting the same message twice leaves the directory as extracting it once. */
  lemma ExtractedIdempotent(t: Tree, parts: seq<Part>, output: string, mimeType: Option<string>,
                            time: Option<real>, now: real, later: real)
    ensures var once := Extracted(t, parts, output, mimeType, time, now);
            Extracted(once, parts, output, mimeType, time, later) == once
  {
    ExtractedPresent(t, parts, output, mimeType, time, now);
    ExtractedNothing(Extracted(t, parts, output, mimeType, time, now), parts, output, mimeType, time, later);
  }
}
