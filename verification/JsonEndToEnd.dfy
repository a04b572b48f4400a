/**
 The writer and the reader together: what is written is read back.
 */
module JsonEndToEnd {
  import opened JsonValue
  import opened JsonText
  import W = JsonWriter
  import P = JsonParser
  import R = JsonReader
  import T = JsonRoundTrip

  /** Writes a value and parses the text: the same value, unless it is nested too deep. */
  method WriteAndParse(options: WriterOptions, features: P.Features, v: Value, target: Value)
    returns (verdict: R.Verdict, root: Value)
    requires !options.dropNullPlaceholders && T.Canonical(v) && WellFormed(v) && WellFormed(target)
    requires features.strictRoot ==> v.Array? || v.Object?
    ensures if T.Depth(v) <= P.STACK_LIMIT then verdict == R.Flag(true) && root == v else verdict == R.Exception
  {
    hide *;
    CanonicalInRange(v);
    var writer := new W.FastWriter(options);
    var text := writer.Write(v);
    T.RoundTrip(features, options, v, target);
    var reader := new R.Reader(features);
    verdict := reader.Parse(text, target);
    root := reader.root;
  }

  /** Canonical integers fit their C++ types. */
  lemma {:induction false} CanonicalInRange(v: Value)
    requires T.Canonical(v)
    ensures W.InRange(v)
    decreases v
  {
    match v
    case Array(items) =>
      forall i | 0 <= i < |items| ensures W.InRange(items[i]) {
        CanonicalInRange(items[i]);
      }
    case Object(members) =>
      forall i | 0 <= i < |members| ensures W.InRange(members[i].value) {
        CanonicalInRange(members[i].value);
      }
    case _ =>
  }
}
