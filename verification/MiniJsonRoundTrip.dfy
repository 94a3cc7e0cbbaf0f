/**
 minijson's writer and reader together: a tree is written through buffers of any size and
 the stream is parsed over itself.
 */
module MiniJsonRoundTrip {
  import opened MiniJson
  import opened MiniJsonEvents
  import opened MiniJsonReader
  import opened MiniJsonText
  import MiniJsonWriter

  /** The same tree comes back and the handler sees its walk, exactly when it is nested within the limit. */
  method WriteThenParse(v: Tree, cfg: Config, level: nat, sizes: MiniJsonWriter.Sizes, d: ToDouble)
    returns (r: Outcome<Tree>, events: seq<Event>)
    requires Writable(v) && (v.Array? || v.Object?) && sizes.Ok()
    ensures if Depth(v) <= NESTING_LIMIT + 1 then r == Good(v) && events == Walk(v)
            else r.Bad? && r.reason == ExceededNestingLimit
  {
    hide TreeText, Document, Events, Walk;
    var stream := new MiniJsonWriter.Stream();
    MiniJsonWriter.WriteTree(stream, v, cfg, level, sizes);
    var text := stream.out;
    assert text == TreeText(v, cfg, level, "");
    r, events := ParseInPlace(text, v.Object?, d);
    WriteRead(v, cfg, level, "", d);
    EventsWalk(text, v.Object?, d);
  }
}
