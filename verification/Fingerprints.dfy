/**
 * Sets of dimension fingerprints and the data frame that carries them between two evaluations
 * of an alert rule (pkg/expr/hysteresis.go).
 */
module Fingerprints {
  import opened Basics

  /** A 64-bit hash of a label set. */
  type Fingerprint = n: nat | n < 0x1_0000_0000_0000_0000

  datatype Field = Uint64Field(values: seq<Fingerprint>) | OtherField(fieldType: string)

  datatype Frame = Frame(frameType: string, major: nat, minor: nat, fields: seq<Field>)

  datatype FrameError =
    | NotFingerprints
    | UnsupportedVersion
    | FieldCount(got: nat)
    | FieldType(name: string)

  const FRAME_TYPE := "fingerprints"

  /** A frame that may be read back: the type, version and shape FingerprintsFromFrame asks for. */
  predicate Readable(frame: Frame) {
    && frame.frameType == FRAME_TYPE
    && (frame.major == 0 || (frame.major == 1 && frame.minor == 0))
    && |frame.fields| == 1
    && frame.fields[0].Uint64Field?
  }

  /** A readable frame whose entries are the fingerprints of s, in some order and any number of times. */
  ghost predicate Lists(frame: Frame, s: set<Fingerprint>) {
    Readable(frame) && forall f :: f in s <==> f in frame.fields[0].values
  }

  /** A frame that holds exactly the fingerprints of s, each once. */
  ghost predicate Carries(frame: Frame, s: set<Fingerprint>) {
    Lists(frame, s) && Distinct(frame.fields[0].values)
  }

  method FromFrame(frame: Frame) returns (r: Result<set<Fingerprint>, FrameError>)
    ensures r.Ok? <==>
      && frame.frameType == "fingerprints" && (frame.major == 0 || (frame.major == 1 && frame.minor == 0))
      && |frame.fields| == 1 && frame.fields[0].Uint64Field?
    ensures r.Ok? ==> Lists(frame, r.value)
    ensures r == Err(NotFingerprints) <==> frame.frameType != "fingerprints"
    ensures r == Err(UnsupportedVersion) <==>
      frame.frameType == FRAME_TYPE && (frame.major > 1 || (frame.major == 1 && frame.minor > 0))
    ensures r.Err? && r.error.FieldCount? ==> r.error.got == |frame.fields| != 1
    ensures r.Err? && r.error.FieldType? ==> |frame.fields| == 1 && frame.fields[0] == OtherField(r.error.name)
  {
    if frame.frameType != FRAME_TYPE {
      return Err(NotFingerprints);
    }
    if frame.major > 1 || (frame.major == 1 && frame.minor > 0) {
      return Err(UnsupportedVersion);
    }
    if |frame.fields| != 1 {
      return Err(FieldCount(|frame.fields|));
    }
    var field := frame.fields[0];
    if !field.Uint64Field? {
      return Err(FieldType(field.fieldType));
    }
    var result: set<Fingerprint> := {};
    for i := 0 to |field.values|
      invariant forall f :: f in result <==> f in field.values[..i]
    {
      result := result + {field.values[i]};
    }
    assert field.values[..|field.values|] == field.values;
    return Ok(result);
  }

  /** The set is visited in an arbitrary order, as a Go map is. */
  method ToFrame(fingerprints: set<Fingerprint>) returns (frame: Frame)
    ensures Carries(frame, fingerprints)
    ensures frame.frameType == "fingerprints" && frame.major == 1 && frame.minor == 0 && |frame.fields[0].values| == |fingerprints|
  {
    var fp: seq<Fingerprint> := [];
    var rest := fingerprints;
    while rest != {}
      invariant rest <= fingerprints && |fp| + |rest| == |fingerprints|
      invariant Distinct(fp)
      invariant forall f :: f in fingerprints - rest <==> f in fp
      decreases rest
    {
      var f :| f in rest;
      assert f !in fp;
      fp := fp + [f];
      rest := rest - {f};
    }
    frame := Frame(FRAME_TYPE, 1, 0, [Uint64Field(fp)]);
  }

  /** Writing a set to a frame and reading it back gives the same set, whatever the visiting order. */
  method RoundTrip(fingerprints: set<Fingerprint>) returns (r: Result<set<Fingerprint>, FrameError>)
    ensures r == Ok(fingerprints)
  {
    var frame := ToFrame(fingerprints);
    r := FromFrame(frame);
    assert r.value == fingerprints;
  }
}
