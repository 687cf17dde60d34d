/** The encoder's stream: items appended to nested lists that close when full. */
module RlpStreams {
  import opened Types
  import opened Rlp

  /** A list still waiting for `left` items. */
  datatype Frame = Frame(left: nat, items: seq<Item>)

  /** Open lists, innermost last, and the finished top-level items. */
  datatype Stream = Stream(frames: seq<Frame>, items: seq<Item>)

  /** Append one item; a list that becomes full is itself appended to its parent. */
  function Push(st: Stream, it: Item): Stream
    decreases |st.frames|
  {
    if st.frames == [] then Stream([], st.items + [it])
    else
      var n := |st.frames| - 1;
      var items := st.frames[n].items + [it];
      if st.frames[n].left <= 1 then Push(Stream(st.frames[..n], st.items), List(items))
      else Stream(st.frames[..n] + [Frame(st.frames[n].left - 1, items)], st.items)
  }

  function Open(st: Stream, n: nat): Stream {
    if n == 0 then Push(st, List([])) else Stream(st.frames + [Frame(n, [])], st.items)
  }

  function PushAll(st: Stream, its: seq<Item>): Stream
    decreases its
  {
    if its == [] then st else PushAll(Push(st, its[0]), its[1..])
  }

  lemma {:induction false} PushAllAppend(st: Stream, a: seq<Item>, b: seq<Item>)
    ensures PushAll(st, a + b) == PushAll(PushAll(st, a), b)
    decreases a
  {
    if a == [] {
      assert a + b == b;
    } else {
      PushAllAppend(Push(st, a[0]), a[1..], b);
      assert (a + b)[1..] == a[1..] + b;
    }
  }

  lemma PushAllOne(st: Stream, a: seq<Item>, it: Item)
    ensures PushAll(st, a + [it]) == Push(PushAll(st, a), it)
  {
    PushAllAppend(st, a, [it]);
    assert [it][1..] == [];
  }

  lemma PushAllTwo(st: Stream, a: Item, b: Item)
    ensures PushAll(st, [a, b]) == Push(Push(st, a), b)
  {
    PushAllOne(st, [a], b);
    PushAllOne(st, [], a);
    assert [a] + [b] == [a, b] && [] + [a] == [a];
  }

  lemma PushAllThree(st: Stream, a: Item, b: Item, c: Item)
    ensures PushAll(st, [a, b, c]) == Push(Push(Push(st, a), b), c)
  {
    PushAllTwo(st, a, b);
    PushAllOne(st, [a, b], c);
    assert [a, b] + [c] == [a, b, c];
  }

  lemma {:induction false} FillFrame(frames: seq<Frame>, top: seq<Item>, pre: seq<Item>, its: seq<Item>)
    requires its != []
    ensures PushAll(Stream(frames + [Frame(|its|, pre)], top), its) == Push(Stream(frames, top), List(pre + its))
    decreases its
  {
    var st := Stream(frames + [Frame(|its|, pre)], top);
    assert st.frames[..|frames|] == frames;
    if |its| == 1 {
      assert pre + its == pre + [its[0]];
    } else {
      assert pre + [its[0]] + its[1..] == pre + its;
      FillFrame(frames, top, pre + [its[0]], its[1..]);
    }
  }

  /** Opening a list and appending its items is appending the list, at any depth. */
  lemma OpenThenPush(st: Stream, its: seq<Item>)
    ensures PushAll(Open(st, |its|), its) == Push(st, List(its))
  {
    if its != [] {
      FillFrame(st.frames, st.items, [], its);
      assert [] + its == its;
    }
  }

  class RlpStream {
    var st: Stream

    constructor NewList(n: nat)
      ensures st == Open(Stream([], []), n)
    {
      st := Open(Stream([], []), n);
    }

    method BeginList(n: nat)
      modifies this
      ensures st == Open(old(st), n)
    {
      st := Open(st, n);
    }

    /** `append_raw` of one encoded item. */
    method AppendRaw(it: Item)
      modifies this
      ensures st == Push(old(st), it)
    {
      st := Push(st, it);
    }

    method Append(data: Bytes)
      modifies this
      ensures st == Push(old(st), Str(data))
    {
      AppendRaw(Str(data));
    }

    method AppendEmptyData()
      modifies this
      ensures st == Push(old(st), Str([]))
    {
      AppendRaw(Str([]));
    }

    method Out() returns (b: Bytes)
      requires st.frames == [] && FitsAll(st.items)
      ensures b == EncodeAll(st.items)
    {
      b := EncodeAll(st.items);
    }
  }
}
