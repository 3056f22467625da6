/** What a builder leaves, a validator accepts: the two ends of the format put together. */
module ValidatorRoundTrip {
  import opened Bytes
  import opened Format
  import opened Frames
  import opened Layout
  import opened RoundTrip
  import opened Slice
  import opened Validity
  import Builder
  import Runs
  import Validator

  /** Whatever legal calls lead to one acceptable value, the bytes they leave are those of a
      finished value, alone in the buffer. */
  lemma EveryRunFinishes(utf8: bool, o: Options, calls: seq<Runs.Call>, v: Value)
    requires Runs.LegalRun(Runs.Initial, calls) && Runs.Run(Runs.Initial, calls) == Runs.State([v], [])
    requires |Encode(o, v)| < Limit && Acceptable(utf8, o, v)
    ensures Expected(o, [v], []) == Encode(o, v)
    ensures Finished(utf8, Expected(o, [v], []), 0, |Expected(o, [v], [])|, false)
  {
    hide Encode, Runs.LegalRun, Runs.Run, UniqueKeys, Acceptable;
    Runs.RunUnique(Runs.Initial, calls);
    Runs.SingleRoot(o, v);
    assert Built(utf8, o, v, Encode(o, v), 0);
    assert Fits(|Encode(o, v)|, |Encode(o, v)|, false);
  }

  /** Building a value and validating the buffer at its exact length. */
  method BuildAndValidate(o: Options, v: Value, validator: Validator.Validator)
    returns (b: Builder.Builder, r: Validator.Verdict)
    requires UniqueKeys(v) && Runs.Storable(v) && |Encode(o, v)| < Limit
    requires Acceptable(validator.validateUtf8Strings, o, v)
    modifies validator
    ensures b.Valid() && r.Valid? && b.Content() == Encode(o, v) && validator.level == old(validator.level)
  {
    hide Encode, UniqueKeys, Acceptable;
    b := Runs.Build(o, v);
    ghost var content := b.Content();
    assert Built(validator.validateUtf8Strings, o, v, content, 0);
    assert Fits(|Encode(o, v)|, |content|, false);
    assert Finished(validator.validateUtf8Strings, content, 0, |content|, false);
    var bytes := b.start[..b.pos];
    r := validator.Validate(bytes, 0, |bytes|, false);
  }
}
