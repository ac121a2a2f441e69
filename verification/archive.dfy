/** The local mbox archive as the program uses it: opened from a file, messages
    added under store-assigned keys, messages removed by key, and the file written
    back on flush. Adding writes to the file at once; a removal is only recorded
    and takes effect when the file is rewritten by flush. */
module Archive {
  import opened Base

  /** One stored message: the value of its Message-Id header (None when it has
      none) and its raw text. How the header is parsed from the text is not modelled. */
  datatype Message = Message(messageId: Option<string>, raw: string)

  /** A slot of the open mailbox: the message and whether it is still live. */
  datatype Entry = Entry(message: Message, live: bool)

  /** An open mailbox. The key of a message is the position of its slot; keys are
      handed out in increasing order and never reused while the mailbox is open. */
  datatype Mbox = Mbox(entries: seq<Entry>)

  /** The messages of an mbox file, in file order. */
  type File = seq<Message>

  /** `key` names a message that has not been removed. */
  predicate Present(box: Mbox, key: int) {
    0 <= key < |box.entries| && box.entries[key].live
  }

  /** The key the next `Add` hands out. */
  function NextKey(box: Mbox): nat {
    |box.entries|
  }

  /** What flush writes: the live messages in key order. */
  function Contents(box: Mbox): File
    decreases |box.entries|
  {
    if |box.entries| == 0 then []
    else
      var n := |box.entries| - 1;
      Contents(Mbox(box.entries[..n])) + (if box.entries[n].live then [box.entries[n].message] else [])
  }

  /** What the file holds before any flush: every message read or appended, since
      appends go to the file at once and removals wait for the rewrite. */
  function Written(box: Mbox): File
  {
    seq(|box.entries|, k requires 0 <= k < |box.entries| => box.entries[k].message)
  }

  /** Opening a file: one live slot per message, keys 0, 1, ... in file order. */
  function Open(file: File): (box: Mbox)
    ensures |box.entries| == |file|
    ensures forall k :: 0 <= k < |file| ==> Present(box, k) && box.entries[k].message == file[k]
    ensures Written(box) == file
  {
    Mbox(seq(|file|, k requires 0 <= k < |file| => Entry(file[k], true)))
  }

  /** Appending a message: it gets the next key and every earlier slot is kept. */
  function Add(box: Mbox, m: Message): (r: Mbox)
    ensures |r.entries| == |box.entries| + 1
    ensures r.entries[..|box.entries|] == box.entries
    ensures Present(r, NextKey(box)) && r.entries[NextKey(box)].message == m
    ensures Contents(r) == Contents(box) + [m]
    ensures Written(r) == Written(box) + [m]
  {
    var r := Mbox(box.entries + [Entry(m, true)]);
    assert r.entries[..|box.entries|] == box.entries;
    r
  }

  /** Marking a set of keys removed; their messages stay in the file until flush. */
  function Discard(box: Mbox, keys: set<int>): (r: Mbox)
    ensures |r.entries| == |box.entries|
    ensures forall k :: 0 <= k < |box.entries| ==> r.entries[k].message == box.entries[k].message
    ensures forall k :: Present(r, k) <==> Present(box, k) && k !in keys
    ensures Written(r) == Written(box)
  {
    Mbox(seq(|box.entries|, k requires 0 <= k < |box.entries| =>
      if k in keys then box.entries[k].(live := false) else box.entries[k]))
  }

  /** `mailbox.remove(key)`: raises KeyError for a key that is absent or already removed. */
  function Remove(box: Mbox, key: int): (r: Result<Mbox>)
    ensures r.Raised? <==> !Present(box, key)
    ensures r.Ok? ==> !Present(r.value, key)
    ensures r.Ok? ==> forall k :: k != key ==> (Present(r.value, k) <==> Present(box, k))
    ensures r.Ok? ==> |r.value.entries| == |box.entries| && Written(r.value) == Written(box)
  {
    if Present(box, key) then Ok(Discard(box, {key})) else Raised("KeyError")
  }

  /** `mailbox.clear()`: every message is removed (the rewrite happens on flush). */
  function Clear(box: Mbox): (r: Mbox)
    ensures |r.entries| == |box.entries|
    ensures forall k :: !Present(r, k)
    ensures Contents(r) == []
    ensures Written(r) == Written(box)
  {
    var r := Mbox(seq(|box.entries|, k requires 0 <= k < |box.entries| => box.entries[k].(live := false)));
    NothingLive(r);
    r
  }

  lemma {:induction false} NothingLive(box: Mbox)
    requires forall k :: !Present(box, k)
    ensures Contents(box) == []
    decreases |box.entries|
  {
    if |box.entries| > 0 {
      var n := |box.entries| - 1;
      var front := Mbox(box.entries[..n]);
      assert forall k :: Present(front, k) ==> Present(box, k);
      assert !Present(box, n);
      NothingLive(front);
    }
  }

  /** A freshly opened file flushes back to itself. */
  lemma {:induction false} FlushAfterOpen(file: File)
    ensures Contents(Open(file)) == file
    decreases |file|
  {
    if |file| > 0 {
      var n := |file| - 1;
      assert Open(file).entries[..n] == Open(file[..n]).entries;
      FlushAfterOpen(file[..n]);
      assert file == file[..n] + [file[n]];
    }
  }

  /** When no slot was removed, flushing writes exactly what is already in the file. */
  lemma {:induction false} FlushWithoutRemovals(box: Mbox)
    requires forall k :: 0 <= k < |box.entries| ==> box.entries[k].live
    ensures Contents(box) == Written(box)
    decreases |box.entries|
  {
    if |box.entries| > 0 {
      var n := |box.entries| - 1;
      var front := Mbox(box.entries[..n]);
      FlushWithoutRemovals(front);
      assert Written(box) == Written(front) + [box.entries[n].message];
    }
  }

  /** Flushing slots `a` then slots `b` writes what `a` alone would, then what `b`
      alone would. */
  lemma {:induction false} ContentsAppend(a: seq<Entry>, b: seq<Entry>)
    ensures Contents(Mbox(a + b)) == Contents(Mbox(a)) + Contents(Mbox(b))
    decreases |b|
  {
    if |b| > 0 {
      var n := |b| - 1;
      assert (a + b)[..|a| + n] == a + b[..n];
      ContentsAppend(a, b[..n]);
    } else {
      assert a + b == a;
    }
  }
}
