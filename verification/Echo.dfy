/** Clipboard reading and writing with the deduplication state that keeps a network of nodes from echoing. */
module Echo {
  import opened Bytes
  import opened ClipboardContent

  /** A file path, in its lossy text form. */
  type Path = seq<byte>
  type Str = seq<byte>

  datatype Pixels = Pixels(width: nat, height: nat, rgba: seq<byte>)

  /** What the system clipboard offers: any of a file list, an image and a text. */
  datatype Clipboard = Clipboard(files: seq<Path>, image: Option<Pixels>, text: Option<Str>)

  const EMPTY: Clipboard := Clipboard([], None, None)

  function OfText(t: Str): Clipboard { Clipboard([], None, Some(t)) }
  function OfFiles(ps: seq<Path>): Clipboard { Clipboard(ps, None, None) }
  function OfImage(p: Pixels): Clipboard { Clipboard([], Some(p), None) }

  datatype Dedup = Dedup(lastText: Option<Str>, lastImageHash: Option<u64>, lastFilesHash: Option<u64>)

  /** The program's two hash functions, of path lists and of byte strings. */
  datatype Hashes = Hashes(ofPaths: seq<Path> -> u64, ofBytes: seq<byte> -> u64)

  /** A node: its clipboard and its deduplication state. */
  datatype Node = Node(clip: Clipboard, dedup: Dedup)

  const FRESH: Node := Node(EMPTY, Dedup(None, None, None))

  /** How a reading of the clipboard turns out: files found on disk, PNG made of an image, and the two calls that can fail. */
  datatype Reading = Reading(entries: seq<FileEntry>, png: Option<seq<byte>>, opens: bool, accepted: bool)

  /**
   How a writing of the clipboard turns out: the paths to offer once the files are saved, pixels
   decoded from a PNG, the calls that can fail, and what a failed write leaves on the clipboard.
   */
  datatype Writing = Writing(opens: bool, saved: seq<Path>, native: bool, reopens: bool, pixels: Option<Pixels>, wrote: bool, left: Clipboard)

  // ---------------------------------------------------------------- reading

  function FileContent(entries: seq<FileEntry>): seq<Content> {
    if entries == [] then []
    else if |entries| == 1 then [File(entries[0].name, entries[0].bytes)]
    else [Files(entries)]
  }

  function Sent(cs: seq<Content>, accepted: bool): seq<Content> {
    if accepted then cs else []
  }

  /** `get_clipboard_content`: the node afterwards, and what it hands to the network. */
  function Look(n: Node, r: Reading, h: Hashes): (Node, seq<Content>) {
    if n.clip.files != [] then
      var hash := h.ofPaths(n.clip.files);
      if n.dedup.lastFilesHash == Some(hash) then (n, [])
      else (n.(dedup := Dedup(None, None, Some(hash))), Sent(FileContent(r.entries), r.accepted))
    else if !r.opens then (n, [])
    else if n.clip.image.Some? then
      var hash := h.ofBytes(n.clip.image.value.rgba);
      if n.dedup.lastImageHash == Some(hash) then (n, [])
      else (n.(dedup := Dedup(None, Some(hash), None)), Sent(if r.png.Some? then [Image(r.png.value)] else [], r.accepted))
    else if n.clip.text.Some? then
      if n.dedup.lastText == n.clip.text then (n, [])
      else (n.(dedup := Dedup(n.clip.text, None, None)), Sent([Text(n.clip.text.value)], r.accepted))
    else (n, [])
  }

  // ---------------------------------------------------------------- writing

  function JoinLines(ps: seq<Path>): Str {
    if ps == [] then []
    else if |ps| == 1 then ps[0]
    else JoinLines(ps[..|ps| - 1]) + ['\n' as int] + ps[|ps| - 1]
  }

  /** `set_file_clipboard`. */
  function WriteFiles(n: Node, w: Writing, h: Hashes): Node {
    if w.saved == [] then n
    else
      var dedup := Dedup(None, None, Some(h.ofPaths(w.saved)));
      if w.native then Node(OfFiles(w.saved), dedup)
      else
        var text := JoinLines(w.saved);
        Node(if w.reopens && w.wrote then OfText(text) else w.left, dedup.(lastText := Some(text)))
  }

  /** `set_clipboard_content`. */
  function Place(n: Node, c: Content, w: Writing, h: Hashes): Node {
    if !w.opens then n
    else
      match c
      case Text(t) => Node(if w.wrote then OfText(t) else w.left, Dedup(Some(t), None, None))
      case Image(png) =>
        Node(if w.pixels == None then n.clip else if w.wrote then OfImage(w.pixels.value) else w.left,
             Dedup(None, Some(h.ofBytes(png)), None))
      case File(_, _) => WriteFiles(n, w, h)
      case Files(_) => WriteFiles(n, w, h)
  }

  // ---------------------------------------------------------------- the source's form

  class ClipboardNode {
    const hashes: Hashes
    var clipboard: Clipboard
    var lastText: Option<Str>
    var lastImageHash: Option<u64>
    var lastFilesHash: Option<u64>

    ghost function State(): Node
      reads this
    {
      Node(clipboard, Dedup(lastText, lastImageHash, lastFilesHash))
    }

    constructor (hashes: Hashes, clipboard: Clipboard)
      ensures State() == FRESH.(clip := clipboard) && this.hashes == hashes
    {
      this.hashes, this.clipboard := hashes, clipboard;
      lastText, lastImageHash, lastFilesHash := None, None, None;
    }

    method GetClipboardContent(r: Reading) returns (sent: seq<Content>)
      modifies this
      ensures (State(), sent) == Look(old(State()), r, hashes)
    {
      sent := [];
      if clipboard.files != [] {
        var hash := hashes.ofPaths(clipboard.files);
        if lastFilesHash == Some(hash) {
          return;
        }
        lastFilesHash := Some(hash);
        lastText, lastImageHash := None, None;
        if r.entries != [] {
          var content := if |r.entries| == 1 then File(r.entries[0].name, r.entries[0].bytes) else Files(r.entries);
          if r.accepted {
            sent := [content];
          }
        }
        return;
      }
      if !r.opens {
        return;
      }
      if clipboard.image.Some? {
        var hash := hashes.ofBytes(clipboard.image.value.rgba);
        if lastImageHash == Some(hash) {
          return;
        }
        lastImageHash := Some(hash);
        lastText, lastFilesHash := None, None;
        if r.png.Some? && r.accepted {
          sent := [Image(r.png.value)];
        }
        return;
      }
      if clipboard.text.Some? {
        var contents := clipboard.text.value;
        if lastText == Some(contents) {
          return;
        }
        lastText := Some(contents);
        lastImageHash, lastFilesHash := None, None;
        if r.accepted {
          sent := [Text(contents)];
        }
      }
    }

    method SetFileClipboard(w: Writing)
      modifies this
      ensures State() == WriteFiles(old(State()), w, hashes)
    {
      if w.saved == [] {
        return;
      }
      lastFilesHash := Some(hashes.ofPaths(w.saved));
      lastText, lastImageHash := None, None;
      if w.native {
        clipboard := OfFiles(w.saved);
        return;
      }
      var pathText := JoinLines(w.saved);
      lastText := Some(pathText);
      clipboard := w.left;
      if w.reopens && w.wrote {
        clipboard := OfText(pathText);
      }
    }

    method SetClipboardContent(c: Content, w: Writing)
      modifies this
      ensures State() == Place(old(State()), c, w, hashes)
    {
      if !w.opens {
        return;
      }
      match c {
        case Text(text) =>
          lastText := Some(text);
          lastImageHash, lastFilesHash := None, None;
          clipboard := if w.wrote then OfText(text) else w.left;
        case Image(png) =>
          lastImageHash := Some(hashes.ofBytes(png));
          lastText, lastFilesHash := None, None;
          if w.pixels.Some? {
            clipboard := if w.wrote then OfImage(w.pixels.value) else w.left;
          }
        case File(_, _) => SetFileClipboard(w);
        case Files(_) => SetFileClipboard(w);
      }
    }
  }

  // ---------------------------------------------------------------- when a node speaks

  /** Would reading the clipboard now miss the deduplication state? */
  predicate Unheard(n: Node, h: Hashes) {
    if n.clip.files != [] then n.dedup.lastFilesHash != Some(h.ofPaths(n.clip.files))
    else if n.clip.image.Some? then n.dedup.lastImageHash != Some(h.ofBytes(n.clip.image.value.rgba))
    else n.clip.text.Some? && n.dedup.lastText != n.clip.text
  }

  /** The content a successful reading makes of the clipboard: files before image before text. */
  function Meaning(clip: Clipboard, r: Reading): seq<Content> {
    if clip.files != [] then FileContent(r.entries)
    else if !r.opens then []
    else if clip.image.Some? then (if r.png.Some? then [Image(r.png.value)] else [])
    else if clip.text.Some? then [Text(clip.text.value)]
    else []
  }

  /**
   A reading hands over the clipboard's content exactly when the deduplication state does not know
   it and the channel takes it; it leaves the clipboard alone; and once a reading got through to
   the clipboard, the node has been heard.
   */
  lemma ReadSpeaksOnce(n: Node, r: Reading, h: Hashes)
    ensures Look(n, r, h).1 == (if Unheard(n, h) && r.accepted then Meaning(n.clip, r) else [])
    ensures |Look(n, r, h).1| <= 1
    ensures Look(n, r, h).0.clip == n.clip
    ensures !Unheard(n, h) ==> Look(n, r, h).0 == n
    ensures Unheard(Look(n, r, h).0, h) <==> (Unheard(n, h) && n.clip.files == [] && !r.opens)
  {
  }

  /** The writing goes through and reads back as what deduplication expects. */
  predicate Faithful(c: Content, w: Writing, h: Hashes) {
    w.opens ==>
      match c
      case Text(_) => w.wrote
      case Image(png) => w.pixels.Some? && w.wrote && h.ofBytes(png) == h.ofBytes(w.pixels.value.rgba)
      case File(_, _) => w.saved == [] || w.native || (w.reopens && w.wrote)
      case Files(_) => w.saved == [] || w.native || (w.reopens && w.wrote)
  }

  /** A faithful writing never gives the node anything new to say. */
  lemma FaithfulWriteIsSilent(n: Node, c: Content, w: Writing, h: Hashes)
    requires Faithful(c, w, h)
    ensures Unheard(Place(n, c, w, h), h) ==> Unheard(n, h)
  {
  }

  /**
   A received image is echoed if and only if the hash of its PNG bytes differs from the hash of the
   pixels decoded from it: the writer records the one, the reader compares with the other.
   */
  lemma ImageEchoesIff(n: Node, png: seq<byte>, w: Writing, r: Reading, h: Hashes)
    requires w.opens && w.pixels.Some? && w.wrote
    requires r.opens && r.accepted && r.png.Some?
    ensures Look(Place(n, Image(png), w, h), r, h).1 == [Image(r.png.value)]
            <==> h.ofBytes(png) != h.ofBytes(w.pixels.value.rgba)
  {
  }

  /** The reader finds nothing here. */
  predicate Silent(clip: Clipboard) {
    clip.files == [] && clip.image == None && clip.text == None
  }

  /** The reader takes both for the same copy: same kind, by its priorities, and same hash or text. */
  predicate SameCopy(a: Clipboard, b: Clipboard, h: Hashes) {
    if a.files != [] then b.files != [] && h.ofPaths(a.files) == h.ofPaths(b.files)
    else if b.files != [] then false
    else if a.image.Some? then b.image.Some? && h.ofBytes(a.image.value.rgba) == h.ofBytes(b.image.value.rgba)
    else b.image == None && a.text.Some? && a.text == b.text
  }

  /**
   After a reading that spoke, the only clipboards the node would say nothing about are those that
   offer nothing and those it takes for the copy just read. Of files it compares the paths alone, so
   a file copied again from its path is such a copy even if its contents have changed.
   */
  lemma OnlyTheLastCopyIsKnown(n: Node, r: Reading, h: Hashes, next: Clipboard)
    requires Unheard(n, h) && r.opens
    ensures !Unheard(Look(n, r, h).0.(clip := next), h) <==> Silent(next) || SameCopy(n.clip, next, h)
  {
  }

  /**
   The same after receiving text or files: only a copy of what was received stays unsaid, which for
   a file list written as text means that text or that list.
   */
  lemma OnlyTheReceivedIsKnown(n: Node, c: Content, w: Writing, h: Hashes, next: Clipboard)
    requires !c.Image? && w.opens && (c.Text? || w.saved != [])
    ensures !Unheard(Place(n, c, w, h).(clip := next), h)
            <==> || Silent(next)
                 || (c.Text? && SameCopy(Clipboard([], None, Some(c.text)), next, h))
                 || (!c.Text? && SameCopy(Clipboard(w.saved, None, None), next, h))
                 || (!c.Text? && !w.native && SameCopy(Clipboard([], None, Some(JoinLines(w.saved))), next, h))
  {
    hide JoinLines;
  }

  // ---------------------------------------------------------------- what is received arrives

  /** A clipboard that cannot be opened changes nothing. */
  lemma NotOpenedNotTouched(n: Node, c: Content, w: Writing, h: Hashes)
    requires !w.opens
    ensures Place(n, c, w, h) == n
  {
  }

  /** A received text is remembered, and is what the clipboard then offers: a node without memory would hand it over as it came. */
  lemma TextArrives(n: Node, t: Str, w: Writing, h: Hashes, r: Reading)
    requires w.opens
    ensures var n' := Place(n, Text(t), w, h);
            && n'.dedup == Dedup(Some(t), None, None)
            && n'.clip == (if w.wrote then Clipboard([], None, Some(t)) else w.left)
            && (w.wrote && r.opens && r.accepted ==> Look(n'.(dedup := Dedup(None, None, None)), r, h).1 == [Text(t)])
  {
  }

  /** A received image is remembered by its PNG, and its decoded pixels are what the clipboard then offers. */
  lemma ImageArrives(n: Node, png: seq<byte>, w: Writing, h: Hashes)
    requires w.opens
    ensures var n' := Place(n, Image(png), w, h);
            && n'.dedup == Dedup(None, Some(h.ofBytes(png)), None)
            && (w.pixels == None ==> n'.clip == n.clip)
            && (w.pixels.Some? ==> n'.clip == if w.wrote then Clipboard([], w.pixels, None) else w.left)
  {
  }

  const NEWLINE: byte := 0x0A

  /** A text cut at its newlines. */
  function Lines(t: Str): (ls: seq<Path>)
    ensures |ls| >= 1
  {
    if t == [] then [[]]
    else
      var more := Lines(t[1..]);
      if t[0] == NEWLINE then [[]] + more else [[t[0]] + more[0]] + more[1..]
  }

  lemma {:induction false} LinesOfOne(p: Path, t: Str)
    requires NEWLINE !in p
    ensures Lines(p) == [p]
    ensures Lines(p + [NEWLINE] + t) == [p] + Lines(t)
  {
    if p == [] {
      assert p + [NEWLINE] + t == [NEWLINE] + t && ([NEWLINE] + t)[1..] == t;
    } else {
      var s := p + [NEWLINE] + t;
      assert s[1..] == p[1..] + [NEWLINE] + t && forall b :: b in p[1..] ==> b in p;
      assert p[0] in p && p == [p[0]] + p[1..];
      LinesOfOne(p[1..], t);
    }
  }

  /** Joined from the front as from the back. */
  lemma {:induction false} JoinCons(p: Path, ps: seq<Path>)
    requires ps != []
    ensures JoinLines([p] + ps) == p + [NEWLINE] + JoinLines(ps)
  {
    var n := |ps| - 1;
    assert ([p] + ps)[..n + 1] == [p] + ps[..n];
    if n == 0 {
      assert ([p] + ps)[..1] == [p];
    } else {
      JoinCons(p, ps[..n]);
      var head, last := JoinLines(ps[..n]), [NEWLINE] + ps[n];
      assert p + [NEWLINE] + head + [NEWLINE] + ps[n] == p + [NEWLINE] + (head + [NEWLINE] + ps[n]);
    }
  }

  lemma {:induction false} LinesOfJoined(ps: seq<Path>)
    requires ps != [] && forall p :: p in ps ==> NEWLINE !in p
    ensures Lines(JoinLines(ps)) == ps
  {
    hide Lines;
    assert ps[0] in ps;
    if |ps| == 1 {
      LinesOfOne(ps[0], []);
    } else {
      assert ps == [ps[0]] + ps[1..] && forall p :: p in ps[1..] ==> p in ps;
      JoinCons(ps[0], ps[1..]);
      LinesOfOne(ps[0], JoinLines(ps[1..]));
      LinesOfJoined(ps[1..]);
    }
  }

  /**
   Received files are remembered by the paths they were saved under, and the clipboard then offers
   those paths: as a file list, or, when that cannot be written, as a text of one path a line, which
   is remembered too. With no file saved nothing changes.
   */
  lemma FilesArrive(n: Node, c: Content, w: Writing, h: Hashes)
    requires w.opens && (c.File? || c.Files?)
    ensures var n' := Place(n, c, w, h);
            && (w.saved == [] ==> n' == n)
            && (w.saved != [] && w.native ==>
                  n' == Node(Clipboard(w.saved, None, None), Dedup(None, None, Some(h.ofPaths(w.saved)))))
            && (w.saved != [] && !w.native ==>
                  && n'.dedup.lastFilesHash == Some(h.ofPaths(w.saved)) && n'.dedup.lastImageHash == None
                  && n'.dedup.lastText.Some?
                  && n'.clip == (if w.reopens && w.wrote then Clipboard([], None, n'.dedup.lastText) else w.left)
                  && ((forall p :: p in w.saved ==> NEWLINE !in p) ==> Lines(n'.dedup.lastText.value) == w.saved))
  {
    hide JoinLines, Lines;
    if w.saved != [] && forall p :: p in w.saved ==> NEWLINE !in p {
      LinesOfJoined(w.saved);
    }
  }

  /** The files a content carries. */
  function EntriesIn(c: Content): seq<FileEntry> {
    if c.File? then [FileEntry(c.name, c.bytes)] else if c.Files? then c.files else []
  }

  /** A file list that is not known is handed over whole: one content, with every file found, in order; none if none was found. */
  lemma FilesAreAllSent(n: Node, r: Reading, h: Hashes)
    requires n.clip.files != [] && n.dedup.lastFilesHash != Some(h.ofPaths(n.clip.files)) && r.accepted
    ensures var sent := Look(n, r, h).1;
            if r.entries == [] then sent == []
            else |sent| == 1 && EntriesIn(sent[0]) == r.entries && (sent[0].File? <==> |r.entries| == 1)
  {
  }

  /** A text copied at one node, noticed there and received at another, is on the other's clipboard, and goes no further. */
  lemma TextReachesTheOther(w: World, i: nat, j: nat, t: Str, r: Reading, wr: Writing, again: Reading, h: Hashes)
    requires i < |w.nodes| && j < |w.nodes| && i != j && w.nodes[i].dedup.lastText != Some(t)
    requires r.opens && r.accepted && wr.opens && wr.wrote
    ensures var noticed := Take(Take(w, Copy(i, Clipboard([], None, Some(t))), h), Notice(i, r), h);
            var received := Take(noticed, Receive(j, Text(t), wr), h);
            && noticed.broadcasts == w.broadcasts + [Text(t)]
            && received.nodes[j].clip == Clipboard([], None, Some(t)) && received.broadcasts == noticed.broadcasts
            && Take(received, Notice(j, again), h).broadcasts == received.broadcasts
            && Take(received, Notice(i, again), h).broadcasts == received.broadcasts
  {
  }

  // ---------------------------------------------------------------- a network of nodes

  datatype Step =
    | Copy(i: nat, clip: Clipboard)
    | Notice(i: nat, r: Reading)
    | Receive(i: nat, content: Content, w: Writing)

  /** The nodes, every content handed to the network so far, and the counts of user copies and of unfaithful writings. */
  datatype World = World(nodes: seq<Node>, broadcasts: seq<Content>, copies: nat, faults: nat)

  function Take(w: World, s: Step, h: Hashes): World {
    if s.i >= |w.nodes| then w
    else
      var n := w.nodes[s.i];
      match s
      case Copy(i, clip) => w.(nodes := w.nodes[i := n.(clip := clip)], copies := w.copies + 1)
      case Notice(i, r) =>
        var (n', sent) := Look(n, r, h);
        w.(nodes := w.nodes[i := n'], broadcasts := w.broadcasts + sent)
      case Receive(i, content, writing) =>
        w.(nodes := w.nodes[i := Place(n, content, writing, h)],
           faults := w.faults + (if Faithful(content, writing, h) then 0 else 1))
  }

  /** Any number of nodes with these clipboards when the program starts. */
  function Start(clips: seq<Clipboard>): World {
    World(seq(|clips|, i requires 0 <= i < |clips| => FRESH.(clip := clips[i])), [], 0, 0)
  }

  function Run(clips: seq<Clipboard>, steps: seq<Step>, h: Hashes): World {
    if steps == [] then Start(clips) else Take(Run(clips, steps[..|steps| - 1], h), steps[|steps| - 1], h)
  }

  /** How many nodes have something to say. */
  function Unspoken(nodes: seq<Node>, h: Hashes): nat {
    if nodes == [] then 0
    else Unspoken(nodes[..|nodes| - 1], h) + (if Unheard(nodes[|nodes| - 1], h) then 1 else 0)
  }

  lemma {:induction false} UnspokenUpdate(nodes: seq<Node>, i: nat, n: Node, h: Hashes)
    requires i < |nodes|
    ensures Unspoken(nodes[i := n], h)
         == Unspoken(nodes, h) - (if Unheard(nodes[i], h) then 1 else 0) + (if Unheard(n, h) then 1 else 0)
  {
    hide Unheard;
    var last := |nodes| - 1;
    if i == last {
      assert nodes[i := n][..last] == nodes[..last];
    } else {
      assert nodes[i := n][..last] == nodes[..last][i := n];
      UnspokenUpdate(nodes[..last], i, n, h);
    }
  }

  /** What has been said and what is yet to be said. */
  function Load(w: World, h: Hashes): nat {
    |w.broadcasts| + Unspoken(w.nodes, h)
  }

  /** Only a user's copy or an unfaithful writing adds to it, and by one. */
  lemma StepLoad(w: World, s: Step, h: Hashes)
    ensures var w' := Take(w, s, h); Load(w', h) - Load(w, h) <= w'.copies - w.copies + w'.faults - w.faults
  {
    hide Unheard, Unspoken, Look, Place, Faithful;
    if s.i < |w.nodes| {
      var n := w.nodes[s.i];
      match s
      case Copy(i, clip) => UnspokenUpdate(w.nodes, i, n.(clip := clip), h);
      case Notice(i, r) =>
        UnspokenUpdate(w.nodes, i, Look(n, r, h).0, h);
        ReadSpends(n, r, h);
      case Receive(i, content, writing) =>
        UnspokenUpdate(w.nodes, i, Place(n, content, writing, h), h);
        if Faithful(content, writing, h) {
          FaithfulWriteIsSilent(n, content, writing, h);
        }
    }
  }

  lemma ReadSpends(n: Node, r: Reading, h: Hashes)
    ensures var (n', sent) := Look(n, r, h);
            |sent| + (if Unheard(n', h) then 1 else 0) <= (if Unheard(n, h) then 1 else 0)
  {
    ReadSpeaksOnce(n, r, h);
  }

  /**
   Over every run of any number of nodes, whatever the network delivers to whom: the contents ever
   broadcast number at most the user copies, plus the clipboards not empty at the start, plus the
   writings that were unfaithful.
   */
  lemma {:induction false} BroadcastsAreBounded(clips: seq<Clipboard>, steps: seq<Step>, h: Hashes)
    ensures var w := Run(clips, steps, h);
            |w.broadcasts| + Unspoken(w.nodes, h) <= Unspoken(Start(clips).nodes, h) + w.copies + w.faults
  {
    hide Take, Unspoken;
    if steps != [] {
      var n := |steps| - 1;
      BroadcastsAreBounded(clips, steps[..n], h);
      StepLoad(Run(clips, steps[..n], h), steps[n], h);
    }
  }

  // ---------------------------------------------------------------- images do

  /** A reading that gets through, of an image whose PNG this is; a writing that gets through, of the pixels it decodes to. */
  function SeesImage(png: seq<byte>): Reading { Reading([], Some(png), true, true) }
  function TakesImage(pixels: Pixels): Writing { Writing(true, [], true, true, Some(pixels), true, EMPTY) }

  /** One user copies an image, two nodes pass it on to each other `n` times. */
  function Ping(png: seq<byte>, pixels: Pixels, n: nat): seq<Step> {
    if n == 0 then [Copy(0, OfImage(pixels)), Notice(0, SeesImage(png))]
    else Ping(png, pixels, n - 1) + [Receive(n % 2, Image(png), TakesImage(pixels)), Notice(n % 2, SeesImage(png))]
  }

  /** What is received was broadcast, and its write gets through and reads back. */
  predicate Genuine(w: World, s: Step) {
    s.Receive? ==> s.content in w.broadcasts && s.w.opens && s.w.wrote
  }

  ghost predicate AllGenuine(clips: seq<Clipboard>, steps: seq<Step>, h: Hashes) {
    forall k :: 0 <= k < |steps| ==> Genuine(Run(clips, steps[..k], h), steps[k])
  }

  lemma TwoMore(clips: seq<Clipboard>, steps: seq<Step>, s1: Step, s2: Step, h: Hashes)
    ensures Run(clips, steps + [s1, s2], h) == Take(Take(Run(clips, steps, h), s1, h), s2, h)
    ensures AllGenuine(clips, steps, h) && Genuine(Run(clips, steps, h), s1) && !s2.Receive? ==>
              AllGenuine(clips, steps + [s1, s2], h)
  {
    hide Take;
    forall k | 0 <= k < |steps| ensures (steps + [s1, s2])[..k] == steps[..k] && (steps + [s1, s2])[k] == steps[k] {}
    assert (steps + [s1, s2])[..|steps|] == steps;
    var one := steps + [s1];
    assert one[..|steps|] == steps;
    assert steps + [s1, s2] == one + [s2];
    assert (one + [s2])[..|one|] == one;
  }

  /** Two nodes, one user copy, and this many broadcasts, all of the image. */
  predicate Storm(w: World, png: seq<byte>, broadcasts: nat) {
    |w.nodes| == 2 && w.copies == 1 && |w.broadcasts| == broadcasts && forall c :: c in w.broadcasts ==> c == Image(png)
  }

  /** A node that takes the image and looks at its clipboard broadcasts it again. */
  lemma PassesOn(w: World, i: nat, png: seq<byte>, pixels: Pixels, n: nat, h: Hashes)
    requires i < 2 && Storm(w, png, n) && n > 0 && h.ofBytes(png) != h.ofBytes(pixels.rgba)
    ensures Genuine(w, Receive(i, Image(png), TakesImage(pixels)))
    ensures Storm(Take(Take(w, Receive(i, Image(png), TakesImage(pixels)), h), Notice(i, SeesImage(png)), h), png, n + 1)
  {
    hide Faithful, JoinLines;
    assert w.broadcasts[0] in w.broadcasts;
  }

  /**
   With an image whose PNG bytes and pixels hash differently there is no bound: for every `n` two
   nodes have a run with one user copy, in which every delivery is of something broadcast and every
   write reads back, and n + 1 broadcasts.
   */
  lemma {:induction false} ImagesStorm(png: seq<byte>, pixels: Pixels, n: nat, h: Hashes)
    requires h.ofBytes(png) != h.ofBytes(pixels.rgba)
    ensures Storm(Run([EMPTY, EMPTY], Ping(png, pixels, n), h), png, n + 1)
    ensures AllGenuine([EMPTY, EMPTY], Ping(png, pixels, n), h)
  {
    hide Take, Start, Run, Genuine, AllGenuine, Storm, SeesImage, TakesImage;
    var clips := [EMPTY, EMPTY];
    if n == 0 {
      FirstPing(png, pixels, h);
    } else {
      ImagesStorm(png, pixels, n - 1, h);
      var before := Ping(png, pixels, n - 1);
      var s1, s2 := Receive(n % 2, Image(png), TakesImage(pixels)), Notice(n % 2, SeesImage(png));
      PassesOn(Run(clips, before, h), n % 2, png, pixels, n, h);
      TwoMore(clips, before, s1, s2, h);
    }
  }

  lemma FirstPing(png: seq<byte>, pixels: Pixels, h: Hashes)
    ensures Storm(Run([EMPTY, EMPTY], Ping(png, pixels, 0), h), png, 1)
    ensures AllGenuine([EMPTY, EMPTY], Ping(png, pixels, 0), h)
  {
    hide Genuine, Run, AllGenuine, Storm, Take;
    var s1, s2: Step := Copy(0, OfImage(pixels)), Notice(0, SeesImage(png));
    CopiesAreGenuine();
    FirstSteps(png, pixels, h);
    TwoMore([EMPTY, EMPTY], [], s1, s2, h);
    assert [] + [s1, s2] == [s1, s2];
  }

  lemma FirstSteps(png: seq<byte>, pixels: Pixels, h: Hashes)
    ensures var start := Run([EMPTY, EMPTY], [], h);
            Storm(Take(Take(start, Copy(0, OfImage(pixels)), h), Notice(0, SeesImage(png)), h), png, 1)
    ensures AllGenuine([EMPTY, EMPTY], [], h)
  {
    hide Genuine, Faithful, Place;
  }

  lemma CopiesAreGenuine()
    ensures forall w, s: Step :: !s.Receive? ==> Genuine(w, s)
  {
  }

  // ---------------------------------------------------------------- text and files never storm

  /** The users copy text and files only; the network delivers only what was broadcast; every write succeeds. */
  ghost predicate TextAndFiles(clips: seq<Clipboard>, steps: seq<Step>, h: Hashes) {
    && (forall k :: 0 <= k < |clips| ==> clips[k] == EMPTY)
    && forall k :: 0 <= k < |steps| ==> Ordinary(Run(clips, steps[..k], h), steps[k])
  }

  predicate Ordinary(w: World, s: Step) {
    match s
    case Copy(_, clip) => clip.image == None
    case Notice(_, _) => true
    case Receive(_, content, writing) =>
      content in w.broadcasts && writing.wrote && (writing.native || writing.reopens)
  }

  ghost predicate Imageless(w: World) {
    && (forall k :: 0 <= k < |w.nodes| ==> w.nodes[k].clip.image == None)
    && (forall k :: 0 <= k < |w.broadcasts| ==> !w.broadcasts[k].Image?)
    && w.faults == 0
  }

  lemma OrdinaryStep(w: World, s: Step, h: Hashes)
    requires Imageless(w) && Ordinary(w, s)
    ensures Imageless(Take(w, s, h))
  {
    hide JoinLines;
    if s.i < |w.nodes| {
      assert w.nodes[s.i].clip.image == None;
    }
  }

  lemma {:induction false} TextAndFilesStayImageless(clips: seq<Clipboard>, steps: seq<Step>, h: Hashes)
    requires TextAndFiles(clips, steps, h)
    ensures Imageless(Run(clips, steps, h))
  {
    hide Take, Ordinary;
    if steps != [] {
      var n := |steps| - 1;
      forall k | 0 <= k < n ensures Ordinary(Run(clips, steps[..n][..k], h), steps[..n][k]) {
        assert steps[..n][..k] == steps[..k];
      }
      TextAndFilesStayImageless(clips, steps[..n], h);
      OrdinaryStep(Run(clips, steps[..n], h), steps[n], h);
    }
  }

  lemma {:induction false} FreshNodesAreHeard(nodes: seq<Node>, h: Hashes)
    requires forall k :: 0 <= k < |nodes| ==> nodes[k] == FRESH
    ensures Unspoken(nodes, h) == 0
  {
    if nodes != [] {
      FreshNodesAreHeard(nodes[..|nodes| - 1], h);
    }
  }

  /**
   No echo storm: when users copy text and file lists, what is received is what was broadcast, and
   writes read back, the contents ever broadcast never outnumber the user copies, the text fallback
   of a failed file-list write included.
   */
  lemma NoEchoStorm(clips: seq<Clipboard>, steps: seq<Step>, h: Hashes)
    requires TextAndFiles(clips, steps, h)
    ensures |Run(clips, steps, h).broadcasts| <= Run(clips, steps, h).copies
  {
    hide Run, Unspoken;
    BroadcastsAreBounded(clips, steps, h);
    TextAndFilesStayImageless(clips, steps, h);
    FreshNodesAreHeard(Start(clips).nodes, h);
  }
}
