// The byte string a cache key is the digest of, and when it can be read back:
// crates/habitat-graph-cache/src/key.rs. The digest (blake3) is an arbitrary function.

module CacheKey {
  import opened Bytes
  import opened Lists
  import opened Schema

  /** The bytes 1f 's' 't' 'a' 'g' 'e' 1f and 1f 'c' 'o' 'n' 'f' 'i' 'g' 1f. */
  const SEP_STAGE: seq<Byte> := [0x1f, 0x73, 0x74, 0x61, 0x67, 0x65, 0x1f]
  const SEP_CONFIG: seq<Byte> := [0x1f, 0x63, 0x6f, 0x6e, 0x66, 0x69, 0x67, 0x1f]

  const U64_SIZE: int := 0x1_0000_0000_0000_0000

  /** SEP_CONFIG read as a little-endian 64-bit length. */
  const TRAP: int := 0x1f67_6966_6e6f_631f

  // ---------------------------------------------------------------- little-endian numbers

  function LittleEndian(n: nat, width: nat): (bs: seq<Byte>)
    ensures |bs| == width
  {
    if width == 0 then [] else [n % 256] + LittleEndian(n / 256, width - 1)
  }

  function LittleEndianValue(bs: seq<Byte>): nat {
    if bs == [] then 0 else bs[0] + 256 * LittleEndianValue(bs[1..])
  }

  function Power256(width: nat): nat {
    if width == 0 then 1 else 256 * Power256(width - 1)
  }

  lemma {:induction false} LittleEndianRoundTrip(n: nat, width: nat)
    requires n < Power256(width)
    ensures LittleEndianValue(LittleEndian(n, width)) == n
  {
    if width != 0 {
      LittleEndianRoundTrip(n / 256, width - 1);
      assert LittleEndian(n, width)[1..] == LittleEndian(n / 256, width - 1);
    }
  }

  lemma {:induction false} LittleEndianUnique(bs: seq<Byte>)
    ensures LittleEndian(LittleEndianValue(bs), |bs|) == bs
  {
    if bs != [] {
      LittleEndianUnique(bs[1..]);
      var v := LittleEndianValue(bs[1..]);
      assert (bs[0] + 256 * v) % 256 == bs[0] && (bs[0] + 256 * v) / 256 == v;
      assert bs == [bs[0]] + bs[1..];
    }
  }

  lemma EightBytes()
    ensures Power256(8) == U64_SIZE
  {
    assert Power256(2) == 0x1_0000;
    assert Power256(4) == 0x1_0000_0000;
    assert Power256(6) == 0x1_0000_0000_0000;
  }

  lemma TrapIsSeparator()
    ensures LittleEndianValue(SEP_CONFIG) == TRAP
  {
  }

  // ---------------------------------------------------------------- the bytes hashed

  function LengthField(n: nat): seq<Byte> {
    LittleEndian(if n < U64_SIZE then n else U64_SIZE - 1, 8)
  }

  function Framed(input: seq<Byte>): seq<Byte> {
    LengthField(|input|) + input
  }

  function Encoded(stage: seq<Byte>, inputs: seq<seq<Byte>>, config: seq<Byte>): seq<Byte> {
    stage + SEP_STAGE + FlatMap(Framed, inputs) + SEP_CONFIG + config
  }

  /** Feeds the hasher piece by piece; `fed` is what it has been fed. */
  method Derive<Key>(digest: seq<Byte> -> Key, stage: seq<Byte>, inputs: seq<seq<Byte>>, config: seq<Byte>)
    returns (key: Key)
    ensures key == digest(Encoded(stage, inputs, config))
  {
    var fed := stage;
    fed := fed + SEP_STAGE;
    for i := 0 to |inputs|
      invariant fed == stage + SEP_STAGE + FlatMap(Framed, inputs[..i])
    {
      var length := LengthField(|inputs[i]|);
      fed := fed + length;
      fed := fed + inputs[i];
      assert inputs[..i + 1] == inputs[..i] + [inputs[i]];
      Snoc(inputs[..i], inputs[i]);
    }
    assert inputs[..|inputs|] == inputs;
    fed := fed + SEP_CONFIG;
    fed := fed + config;
    key := digest(fed);
  }

  // ---------------------------------------------------------------- reading it back

  datatype Parsed = Parsed(stage: seq<Byte>, inputs: seq<seq<Byte>>, config: seq<Byte>)
  datatype ParsedTail = ParsedTail(inputs: seq<seq<Byte>>, config: seq<Byte>)

  /** Length-prefixed inputs up to the config separator. */
  function ParseInputs(bs: seq<Byte>): Option<ParsedTail> {
    if |bs| < 8 then None
    else if bs[..8] == SEP_CONFIG then Some(ParsedTail([], bs[8..]))
    else
      var n := LittleEndianValue(bs[..8]);
      if |bs| < 8 + n then None
      else
        match ParseInputs(bs[8 + n..])
        case None => None
        case Some(rest) => Some(ParsedTail([bs[8..8 + n]] + rest.inputs, rest.config))
  }

  predicate SeparatorAt(bs: seq<Byte>, p: nat) {
    p + 7 <= |bs| && bs[p..p + 7] == SEP_STAGE
  }

  function ParseFrom(bs: seq<Byte>, p: nat): Option<Parsed>
    requires p <= |bs|
    decreases |bs| - p
  {
    if SeparatorAt(bs, p) then
      match ParseInputs(bs[p + 7..])
      case None => None
      case Some(tail) => Some(Parsed(bs[..p], tail.inputs, tail.config))
    else if p == |bs| then None
    else ParseFrom(bs, p + 1)
  }

  /** The stage ends at the first stage separator. */
  function Parse(bs: seq<Byte>): Option<Parsed> {
    ParseFrom(bs, 0)
  }

  // ---------------------------------------------------------------- when reading back succeeds

  /** The first stage separator after the start of the stage is the one written after it. */
  ghost predicate CleanStage(stage: seq<Byte>) {
    forall p: nat :: p < |stage| ==> !SeparatorAt(stage + SEP_STAGE, p)
  }

  predicate CleanLength(n: nat) {
    n < U64_SIZE && n != TRAP
  }

  predicate CleanInputs(inputs: seq<seq<Byte>>) {
    forall x :: x in inputs ==> CleanLength(|x|)
  }

  lemma NoUnitSeparatorIsClean(stage: seq<Byte>)
    requires 0x1f !in stage
    ensures CleanStage(stage)
  {
    forall p: nat | p < |stage|
      ensures !SeparatorAt(stage + SEP_STAGE, p)
    {
      assert (stage + SEP_STAGE)[p] == stage[p];
    }
  }

  /** The parser's view of a framed input. */
  lemma LengthRead(input: seq<Byte>, rest: seq<Byte>)
    ensures var bs := Framed(input) + rest;
            && 8 <= |bs| && bs[..8] == LengthField(|input|) && bs[8..] == input + rest
            && (bs[..8] == SEP_CONFIG <==> |input| == TRAP)
            && LittleEndianValue(bs[..8]) == if |input| < U64_SIZE then |input| else U64_SIZE - 1
  {
    var bs, n := Framed(input) + rest, if |input| < U64_SIZE then |input| else U64_SIZE - 1;
    assert bs[..8] == LengthField(|input|);
    assert bs[8..] == input + rest;
    EightBytes();
    LittleEndianRoundTrip(n, 8);
    TrapIsSeparator();
    LittleEndianUnique(SEP_CONFIG);
  }

  /** One step of the parser over a framed input: it is read whole, or taken for the config
      separator, or cut short. */
  lemma FrameParsed(x: seq<Byte>, rest: seq<Byte>)
    ensures var r := ParseInputs(Framed(x) + rest);
            if |x| == TRAP then r == Some(ParsedTail([], x + rest))
            else if |x| < U64_SIZE then
              r == (match ParseInputs(rest)
                    case None => None
                    case Some(tail) => Some(ParsedTail([x] + tail.inputs, tail.config)))
            else r.Some? ==> |r.value.inputs| > 0 && |r.value.inputs[0]| == U64_SIZE - 1
  {
    var bs := Framed(x) + rest;
    LengthRead(x, rest);
    if |x| < U64_SIZE {
      assert bs[8..8 + |x|] == bs[8..][..|x|] == x;
      assert bs[8 + |x|..] == bs[8..][|x|..] == rest;
    }
  }

  lemma OneMoreInput(x: seq<Byte>, xs: seq<seq<Byte>>, config: seq<Byte>, rest: seq<Byte>)
    ensures ParseInputs(Framed(x) + rest) == Some(ParsedTail([x] + xs, config))
       <==> CleanLength(|x|) && ParseInputs(rest) == Some(ParsedTail(xs, config))
  {
    FrameParsed(x, rest);
    var r := ParseInputs(rest);
    if r.Some? {
      assert ([x] + r.value.inputs)[1..] == r.value.inputs && ([x] + xs)[1..] == xs;
    }
  }

  lemma {:induction false} InputsReadBackIff(inputs: seq<seq<Byte>>, config: seq<Byte>)
    ensures ParseInputs(FlatMap(Framed, inputs) + SEP_CONFIG + config) == Some(ParsedTail(inputs, config))
       <==> CleanInputs(inputs)
  {
    if inputs == [] {
      assert FlatMap(Framed, inputs) + SEP_CONFIG + config == SEP_CONFIG + config;
      assert (SEP_CONFIG + config)[..8] == SEP_CONFIG && (SEP_CONFIG + config)[8..] == config;
    } else {
      var x, xs := inputs[0], inputs[1..];
      var rest := FlatMap(Framed, xs) + SEP_CONFIG + config;
      assert inputs == [x] + xs;
      FlatMapCons(Framed, x, xs);
      assert FlatMap(Framed, inputs) + SEP_CONFIG + config == Framed(x) + rest;
      InputsReadBackIff(xs, config);
      OneMoreInput(x, xs, config, rest);
    }
  }

  lemma {:induction false} FirstSeparator(bs: seq<Byte>, p: nat, q: nat)
    requires p <= q && SeparatorAt(bs, q)
    requires forall i: nat :: p <= i < q ==> !SeparatorAt(bs, i)
    ensures ParseFrom(bs, p) == ParseFrom(bs, q)
    decreases q - p
  {
    if p < q {
      FirstSeparator(bs, p + 1, q);
    }
  }

  lemma {:induction false} EarlySeparator(bs: seq<Byte>, p: nat, q: nat)
    requires p <= q && SeparatorAt(bs, q)
    ensures ParseFrom(bs, p).Some? ==> |ParseFrom(bs, p).value.stage| <= q
    decreases q - p
  {
    if p < q && !SeparatorAt(bs, p) {
      EarlySeparator(bs, p + 1, q);
    }
  }

  /** Separators that start inside the stage are the same in `stage + SEP_STAGE` and in the whole. */
  lemma SeparatorInPrefix(stage: seq<Byte>, rest: seq<Byte>, p: nat)
    requires p <= |stage|
    ensures SeparatorAt(stage + SEP_STAGE + rest, p) <==> SeparatorAt(stage + SEP_STAGE, p)
  {
    var head := stage + SEP_STAGE;
    assert (head + rest)[p..p + 7] == head[p..p + 7];
  }

  /** The hashed bytes can be read back if and only if the stage does not anticipate its own
      separator and no input has a length that reads as the config separator (or overflows). */
  lemma ReadBackIff(stage: seq<Byte>, inputs: seq<seq<Byte>>, config: seq<Byte>)
    ensures Parse(Encoded(stage, inputs, config)) == Some(Parsed(stage, inputs, config))
       <==> CleanStage(stage) && CleanInputs(inputs)
  {
    var tail := FlatMap(Framed, inputs) + SEP_CONFIG + config;
    var bs, q := stage + SEP_STAGE + tail, |stage|;
    assert Encoded(stage, inputs, config) == bs;
    assert bs[q..q + 7] == SEP_STAGE && bs[q + 7..] == tail && bs[..q] == stage;
    InputsReadBackIff(inputs, config);
    if CleanStage(stage) {
      forall p: nat | p < q
        ensures !SeparatorAt(bs, p)
      {
        SeparatorInPrefix(stage, tail, p);
      }
      FirstSeparator(bs, 0, q);
    } else {
      var p: nat :| p < q && SeparatorAt(stage + SEP_STAGE, p);
      SeparatorInPrefix(stage, tail, p);
      EarlySeparator(bs, 0, p);
    }
  }

  /** Different clean triples are hashed from different bytes. */
  lemma EncodedInjective(s: seq<Byte>, xs: seq<seq<Byte>>, c: seq<Byte>, s': seq<Byte>, xs': seq<seq<Byte>>, c': seq<Byte>)
    requires CleanStage(s) && CleanStage(s')
    requires CleanInputs(xs) && CleanInputs(xs')
    requires Encoded(s, xs, c) == Encoded(s', xs', c')
    ensures s == s' && xs == xs' && c == c'
  {
    ReadBackIff(s, xs, c);
    ReadBackIff(s', xs', c');
  }

  // ---------------------------------------------------------------- when it does not

  /** A stage that contains the separator can imitate an input: two different triples, one key. */
  lemma StageImitatesInput(stage: seq<Byte>, config: seq<Byte>)
    ensures Encoded(stage + SEP_STAGE + LengthField(7), [], config) == Encoded(stage, [SEP_STAGE], config)
    ensures |stage + SEP_STAGE + LengthField(7)| != |stage|
  {
  }

  /** An input as long as the config separator read as a number hides behind the separator. */
  lemma LengthImitatesConfig(stage: seq<Byte>, input: seq<Byte>, config: seq<Byte>)
    requires |input| == TRAP
    ensures Encoded(stage, [input], config) == Encoded(stage, [], input + SEP_CONFIG + config)
  {
    assert [input] == [input] + [];
    FlatMapCons(Framed, input, []);
    assert FlatMap(Framed, []) == [];
    TrapIsSeparator();
    LittleEndianUnique(SEP_CONFIG);
    assert Framed(input) == SEP_CONFIG + input;
  }

  // ---------------------------------------------------------------- exactly when triples collide

  function Hashed(t: Parsed): seq<Byte> {
    Encoded(t.stage, t.inputs, t.config)
  }

  /** The stage `s` goes on after `p` as the bytes hashed for the stage `p` would: with the separator. */
  ghost predicate Anticipates(s: seq<Byte>, p: seq<Byte>) {
    |p| < |s| && s[..|p|] == p && SeparatorAt(s + SEP_STAGE, |p|)
  }

  /** Two triples with these stages and clean inputs are hashed from the same bytes. */
  ghost predicate StagesCollide(s: seq<Byte>, p: seq<Byte>) {
    exists t: Parsed, u: Parsed ::
      t.stage == s && u.stage == p && CleanInputs(t.inputs) && CleanInputs(u.inputs) && Hashed(t) == Hashed(u)
  }

  function Tail(t: Parsed): seq<Byte> {
    FlatMap(Framed, t.inputs) + SEP_CONFIG + t.config
  }

  lemma HashedParts(t: Parsed)
    ensures Hashed(t) == t.stage + SEP_STAGE + Tail(t)
    ensures Hashed(t)[..|t.stage|] == t.stage && Hashed(t)[|t.stage| + 7..] == Tail(t)
    ensures SeparatorAt(Hashed(t), |t.stage|)
  {
    var bs := t.stage + SEP_STAGE + Tail(t);
    assert Hashed(t) == bs;
    assert bs[|t.stage|..|t.stage| + 7] == SEP_STAGE;
  }

  lemma CollisionAnticipates(t: Parsed, u: Parsed)
    requires Hashed(t) == Hashed(u) && |u.stage| < |t.stage|
    ensures Anticipates(t.stage, u.stage)
  {
    var s, p := t.stage, u.stage;
    HashedParts(t);
    HashedParts(u);
    assert s[..|p|] == Hashed(t)[..|s|][..|p|] == Hashed(u)[..|p|];
    SeparatorInPrefix(s, Tail(t), |p|);
  }

  lemma SameLengthSameStage(t: Parsed, u: Parsed)
    requires Hashed(t) == Hashed(u) && |t.stage| == |u.stage|
    requires CleanInputs(t.inputs) && CleanInputs(u.inputs)
    ensures t == u
  {
    HashedParts(t);
    HashedParts(u);
    InputsReadBackIff(t.inputs, t.config);
    InputsReadBackIff(u.inputs, u.config);
  }

  function Zeros(n: nat): (bs: seq<Byte>)
    ensures |bs| == n
  {
    seq(n, i => 0)
  }

  /** A length field followed by as many bytes as it says is a framed input. */
  lemma FrameOf(field: seq<Byte>, body: seq<Byte>)
    requires |field| == 8 && field != SEP_CONFIG && |body| == LittleEndianValue(field)
    ensures Framed(body) == field + body && CleanLength(|body|)
  {
    LittleEndianUnique(field);
    LittleEndianUnique(SEP_CONFIG);
    TrapIsSeparator();
    EightBytes();
    ValueBound(field);
  }

  lemma {:induction false} ValueBound(bs: seq<Byte>)
    ensures LittleEndianValue(bs) < Power256(|bs|)
  {
    if bs != [] {
      ValueBound(bs[1..]);
    }
  }

  /** Whatever the bytes, they begin some sequence of clean framed inputs, separator and config. */
  lemma {:induction false} Completed(bs: seq<Byte>) returns (inputs: seq<seq<Byte>>, more: seq<Byte>, config: seq<Byte>)
    ensures CleanInputs(inputs)
    ensures bs + more == FlatMap(Framed, inputs) + SEP_CONFIG + config
    decreases |bs|
  {
    if |bs| < 8 {
      inputs, more, config := FieldCompleted(bs);
    } else if bs[..8] == SEP_CONFIG {
      inputs, more, config := [], [], bs[8..];
      assert bs + [] == [] + SEP_CONFIG + bs[8..];
    } else if |bs| < 8 + LittleEndianValue(bs[..8]) {
      inputs, more, config := BodyCompleted(bs[..8], bs[8..]);
      assert bs == bs[..8] + bs[8..];
    } else {
      var n := LittleEndianValue(bs[..8]);
      var field, body, rest := bs[..8], bs[8..8 + n], bs[8 + n..];
      var xs;
      xs, more, config := Completed(rest);
      inputs := [body] + xs;
      FrameOf(field, body);
      FlatMapCons(Framed, body, xs);
      assert bs == field + body + rest;
      AppendAssoc(field + body, rest, more);
      Regrouped(field + body, FlatMap(Framed, xs), config);
    }
  }

  lemma Regrouped(a: seq<Byte>, b: seq<Byte>, config: seq<Byte>)
    ensures a + (b + SEP_CONFIG + config) == a + b + SEP_CONFIG + config
  {
  }

  lemma OneFramed(body: seq<Byte>)
    ensures FlatMap(Framed, [body]) == Framed(body)
  {
    FlatMapCons(Framed, body, []);
    assert [body] + [] == [body] && FlatMap(Framed, []) == [];
  }

  lemma BodyCompleted(field: seq<Byte>, start: seq<Byte>)
    returns (inputs: seq<seq<Byte>>, more: seq<Byte>, config: seq<Byte>)
    requires |field| == 8 && field != SEP_CONFIG && |start| <= LittleEndianValue(field)
    ensures CleanInputs(inputs)
    ensures field + start + more == FlatMap(Framed, inputs) + SEP_CONFIG + config
  {
    var pad := Zeros(LittleEndianValue(field) - |start|);
    inputs, more, config := [start + pad], pad + SEP_CONFIG, [];
    FrameOf(field, start + pad);
    OneFramed(start + pad);
    assert field + start + (pad + SEP_CONFIG) == field + (start + pad) + SEP_CONFIG + [];
  }

  lemma FieldCompleted(bs: seq<Byte>) returns (inputs: seq<seq<Byte>>, more: seq<Byte>, config: seq<Byte>)
    requires |bs| < 8
    ensures CleanInputs(inputs)
    ensures bs + more == FlatMap(Framed, inputs) + SEP_CONFIG + config
  {
    var pad := Zeros(8 - |bs|);
    var field := bs + pad;
    assert field[7] == 0 && SEP_CONFIG[7] != 0;
    var rest;
    inputs, rest, config := BodyCompleted(field, []);
    more := pad + rest;
    assert bs + (pad + rest) == bs + pad + [] + rest;
  }

  lemma AnticipationCollides(s: seq<Byte>, p: seq<Byte>) returns (t: Parsed, u: Parsed)
    requires Anticipates(s, p)
    ensures t.stage == s && u.stage == p && CleanInputs(t.inputs) && CleanInputs(u.inputs) && Hashed(t) == Hashed(u)
  {
    var whole := s + SEP_STAGE;
    var rest := whole[|p| + 7..];
    assert whole == p + SEP_STAGE + rest by {
      assert whole[..|p|] == s[..|p|] == p;
      assert whole[|p|..|p| + 7] == SEP_STAGE;
    }
    var inputs, more, config := Completed(rest + SEP_CONFIG);
    t, u := Parsed(s, [], more), Parsed(p, inputs, config);
    HashedParts(t);
    HashedParts(u);
    assert FlatMap(Framed, []) == [] && [] + SEP_CONFIG == SEP_CONFIG;
    assert Tail(t) == SEP_CONFIG + more;
    AppendAssoc(p + SEP_STAGE, rest, SEP_CONFIG + more);
    AppendAssoc(rest, SEP_CONFIG, more);
  }

  /** Two stages collide, for some inputs of clean length and some configs, if and only if the
      longer one goes on after the shorter one with the separator. */
  lemma StagesCollideIff(s: seq<Byte>, p: seq<Byte>)
    requires |p| < |s|
    ensures StagesCollide(s, p) <==> s[..|p|] == p && SeparatorAt(s + SEP_STAGE, |p|)
  {
    if Anticipates(s, p) {
      var t, u := AnticipationCollides(s, p);
    }
    if t: Parsed, u: Parsed :| t.stage == s && u.stage == p && CleanInputs(t.inputs) && CleanInputs(u.inputs)
                               && Hashed(t) == Hashed(u) {
      CollisionAnticipates(t, u);
    }
  }

  /** Different triples with one of these stages and clean inputs are hashed from different bytes. */
  ghost predicate Distinguished(stages: iset<seq<Byte>>) {
    forall t: Parsed, u: Parsed ::
      t.stage in stages && u.stage in stages && CleanInputs(t.inputs) && CleanInputs(u.inputs) && Hashed(t) == Hashed(u)
      ==> t == u
  }

  /** The promise that any change to any component changes what is hashed holds for the stages of
      a program, over all inputs of clean length, if and only if no stage anticipates another. */
  lemma DistinguishedIff(stages: iset<seq<Byte>>)
    ensures Distinguished(stages) <==> forall s, p :: s in stages && p in stages ==> !Anticipates(s, p)
  {
    if Distinguished(stages) {
      forall s, p | s in stages && p in stages
        ensures !Anticipates(s, p)
      {
        if Anticipates(s, p) {
          var t, u := AnticipationCollides(s, p);
        }
      }
    }
    if forall s, p :: s in stages && p in stages ==> !Anticipates(s, p) {
      forall t: Parsed, u: Parsed | t.stage in stages && u.stage in stages && CleanInputs(t.inputs)
                                    && CleanInputs(u.inputs) && Hashed(t) == Hashed(u)
        ensures t == u
      {
        if |u.stage| < |t.stage| {
          CollisionAnticipates(t, u);
        } else if |t.stage| < |u.stage| {
          CollisionAnticipates(u, t);
        } else {
          SameLengthSameStage(t, u);
        }
      }
    }
  }

  /** Stages without the byte 1f anticipate nothing. */
  lemma PlainStagesDistinguished(stages: iset<seq<Byte>>)
    requires forall s :: s in stages ==> 0x1f !in s
    ensures Distinguished(stages)
  {
    DistinguishedIff(stages);
    forall s, p | s in stages && p in stages
      ensures !Anticipates(s, p)
    {
      NoUnitSeparatorIsClean(s);
    }
  }

  // ---------------------------------------------------------------- lengths

  /** Some other list of inputs, all of clean length, shares its bytes with `inputs`. */
  ghost predicate InputsCollide(stage: seq<Byte>, inputs: seq<seq<Byte>>) {
    exists config, u: Parsed :: u.stage == stage && u.inputs != inputs && CleanInputs(u.inputs)
                                && Hashed(Parsed(stage, inputs, config)) == Hashed(u)
  }

  /** Inputs can be mistaken for others, whatever the stage and however many they are, if and only
      if the length of some input is the trap or overflows the length field. */
  lemma InputsCollideIff(stage: seq<Byte>, inputs: seq<seq<Byte>>)
    ensures InputsCollide(stage, inputs) <==> !CleanInputs(inputs)
  {
    if CleanInputs(inputs) {
      if config, u: Parsed :| u.stage == stage && u.inputs != inputs && CleanInputs(u.inputs)
                              && Hashed(Parsed(stage, inputs, config)) == Hashed(u) {
        SameLengthSameStage(Parsed(stage, inputs, config), u);
        assert false;
      }
    } else {
      var clean, more, config := Completed(FlatMap(Framed, inputs) + SEP_CONFIG);
      var t, u := Parsed(stage, inputs, more), Parsed(stage, clean, config);
      assert Tail(t) == Tail(u);
      HashedParts(t);
      HashedParts(u);
      assert Hashed(t) == Hashed(u);
    }
  }

  // ---------------------------------------------------------------- in plain terms

  /** A number below 2^64 in eight bytes, least significant first. */
  function EightBytesOf(n: nat): seq<Byte> {
    var b := n / 0x1_0000_0000;
    [n % 0x100, n / 0x100 % 0x100, n / 0x1_0000 % 0x100, n / 0x100_0000 % 0x100,
     b % 0x100, b / 0x100 % 0x100, b / 0x1_0000 % 0x100, b / 0x100_0000 % 0x100]
  }

  lemma FourBytes(n: nat, width: nat)
    requires width >= 4
    ensures LittleEndian(n, width) == [n % 0x100, n / 0x100 % 0x100, n / 0x1_0000 % 0x100, n / 0x100_0000 % 0x100]
                                      + LittleEndian(n / 0x1_0000_0000, width - 4)
  {
    var n1 := n / 0x100;
    var n2 := n1 / 0x100;
    var n3 := n2 / 0x100;
    assert LittleEndian(n, width) == [n % 0x100] + LittleEndian(n1, width - 1);
    assert LittleEndian(n1, width - 1) == [n1 % 0x100] + LittleEndian(n2, width - 2);
    assert LittleEndian(n2, width - 2) == [n2 % 0x100] + LittleEndian(n3, width - 3);
    assert LittleEndian(n3, width - 3) == [n3 % 0x100] + LittleEndian(n3 / 0x100, width - 4);
    assert n2 == n / 0x1_0000 && n3 == n / 0x100_0000 && n3 / 0x100 == n / 0x1_0000_0000;
  }

  /** The bytes of an input: its length, then itself. */
  function SpelledInput(x: seq<Byte>): seq<Byte> {
    EightBytesOf(if |x| < 0x1_0000_0000_0000_0000 then |x| else 0xFFFF_FFFF_FFFF_FFFF) + x
  }

  lemma InputSpelled(x: seq<Byte>)
    ensures Framed(x) == SpelledInput(x)
  {
    var n := if |x| < U64_SIZE then |x| else U64_SIZE - 1;
    FourBytes(n, 8);
    FourBytes(n / 0x1_0000_0000, 4);
    assert LittleEndian(n / 0x1_0000_0000 / 0x1_0000_0000, 0) == [];
  }

  lemma {:induction false} InputsSpelled(inputs: seq<seq<Byte>>)
    ensures FlatMap(Framed, inputs) == FlatMap(SpelledInput, inputs)
  {
    if inputs != [] {
      InputsSpelled(Init(inputs));
      InputSpelled(Last(inputs));
    }
  }

  /** The bytes hashed, spelled out: 1f "stage" 1f and 1f "config" 1f stand between the parts. */
  lemma EncodedSpelled(stage: seq<Byte>, inputs: seq<seq<Byte>>, config: seq<Byte>)
    ensures Encoded(stage, inputs, config) ==
            stage + [0x1f, 's' as int, 't' as int, 'a' as int, 'g' as int, 'e' as int, 0x1f]
            + FlatMap(SpelledInput, inputs)
            + [0x1f, 'c' as int, 'o' as int, 'n' as int, 'f' as int, 'i' as int, 'g' as int, 0x1f] + config
  {
    InputsSpelled(inputs);
    SeparatorsSpelled();
  }

  lemma SeparatorsSpelled()
    ensures SEP_STAGE == [0x1f, 's' as int, 't' as int, 'a' as int, 'g' as int, 'e' as int, 0x1f]
    ensures SEP_CONFIG == [0x1f, 'c' as int, 'o' as int, 'n' as int, 'f' as int, 'i' as int, 'g' as int, 0x1f]
  {
  }
}
