/** Decoding a stream of self-delimiting items that arrives in arbitrary pieces. */
module Streams {
  import opened Chunks

  datatype Parsed<+D> = Incomplete | Complete(size: nat, item: D)

  /** A parser looks at the front of the bytes buffered so far. */
  type Parser<!T, +D> = seq<T> -> Parsed<D>

  /** A complete item lies within the buffer, is not empty, and does not depend on what arrives behind it. */
  ghost predicate Stable<T(!new), D(!new)>(parse: Parser<T, D>) {
    forall x, y :: StableAt(parse, x, y)
  }

  ghost predicate StableAt<T, D>(parse: Parser<T, D>, x: seq<T>, y: seq<T>) {
    parse(x).Complete? ==> 0 < parse(x).size <= |x| && parse(x + y) == parse(x)
  }

  /** What is handed over from a buffer, and what is left in it. */
  datatype Decoded<T, D> = Decoded(items: seq<D>, rest: seq<T>)

  function Decode<T, D>(parse: Parser<T, D>, buf: seq<T>): Decoded<T, D>
    decreases |buf|
  {
    var p := parse(buf);
    if p.Incomplete? || !(0 < p.size <= |buf|) then Decoded([], buf)
    else
      var d := Decode(parse, buf[p.size..]);
      Decoded([p.item] + d.items, d.rest)
  }

  /** Decoding in two goes delivers the same, and leaves the same, as decoding in one. */
  lemma {:induction false} DecodeInTwo<T(!new), D(!new)>(parse: Parser<T, D>, x: seq<T>, y: seq<T>)
    requires Stable(parse)
    ensures var d := Decode(parse, x);
      var e := Decode(parse, d.rest + y);
      Decode(parse, x + y) == Decoded(d.items + e.items, e.rest)
    decreases |x|
  {
    var p := parse(x);
    if p.Complete? {
      var n := p.size;
      assert StableAt(parse, x, y);
      assert (x + y)[n..] == x[n..] + y;
      DecodeInTwo(parse, x[n..], y);
      var d := Decode(parse, x[n..]);
      var e := Decode(parse, d.rest + y);
      assert [p.item] + d.items + e.items == [p.item] + (d.items + e.items);
    } else {
      assert [] + Decode(parse, x + y).items == Decode(parse, x + y).items;
    }
  }

  /** Reading chunk by chunk, decoding all that is complete after each. */
  function Fed<T, D>(parse: Parser<T, D>, chunks: seq<seq<T>>): Decoded<T, D> {
    if chunks == [] then Decoded([], [])
    else
      var d := Fed(parse, chunks[..|chunks| - 1]);
      var e := Decode(parse, d.rest + chunks[|chunks| - 1]);
      Decoded(d.items + e.items, e.rest)
  }

  /** How a stream is cut into reads makes no difference. */
  lemma {:induction false} ChunkingIsIrrelevant<T(!new), D(!new)>(parse: Parser<T, D>, chunks: seq<seq<T>>)
    requires Stable(parse) && parse([]).Incomplete?
    ensures Fed(parse, chunks) == Decode(parse, Concat(chunks))
  {
    if chunks != [] {
      var init := chunks[..|chunks| - 1];
      ChunkingIsIrrelevant(parse, init);
      DecodeInTwo(parse, Concat(init), chunks[|chunks| - 1]);
    }
  }

  /** Having delivered `done`, the buffer `now` holds what is left of `bytes`. */
  ghost predicate Remains<T, D>(parse: Parser<T, D>, bytes: seq<T>, done: seq<D>, now: seq<T>) {
    Decode(parse, bytes) == Decoded(done + Decode(parse, now).items, Decode(parse, now).rest)
  }

  lemma RemainsAtFirst<T, D>(parse: Parser<T, D>, bytes: seq<T>)
    ensures Remains(parse, bytes, [], bytes)
  {
    assert [] + Decode(parse, bytes).items == Decode(parse, bytes).items;
  }

  lemma RemainsNext<T, D>(parse: Parser<T, D>, bytes: seq<T>, done: seq<D>, now: seq<T>)
    requires Remains(parse, bytes, done, now) && parse(now).Complete? && 0 < parse(now).size <= |now|
    ensures Remains(parse, bytes, done + [parse(now).item], now[parse(now).size..])
  {
    var d := Decode(parse, now[parse(now).size..]);
    assert done + ([parse(now).item] + d.items) == done + [parse(now).item] + d.items;
  }

  lemma RemainsAtLast<T, D>(parse: Parser<T, D>, bytes: seq<T>, done: seq<D>, now: seq<T>)
    requires Remains(parse, bytes, done, now) && parse(now).Incomplete?
    ensures Decode(parse, bytes) == Decoded(done, now)
  {
    assert done + [] == done;
  }

  /** Decoding an item in front of the rest of a stream. */
  lemma DecodeFront<T, D>(parse: Parser<T, D>, frame: seq<T>, rest: seq<T>, item: D)
    requires frame != [] && parse(frame + rest) == Complete(|frame|, item)
    ensures Decode(parse, frame + rest) == Decoded([item] + Decode(parse, rest).items, Decode(parse, rest).rest)
  {
    assert (frame + rest)[|frame|..] == rest;
  }
}
