/** When two identifier spellings name the same thing. */
module IdentifierIdentity {
  import opened Options
  import opened Utf8

  /** The tatweel, which an identifier may contain anywhere without changing its meaning. */
  predicate Ignored(c: nat) {
    c == 0x0640
  }

  /** The hamza-carrying alefs count as the bare alef. */
  function Normalized(c: nat): nat {
    if c == 0x0622 || c == 0x0623 || c == 0x0625 then 0x0627 else c
  }

  function Semantic(cs: seq<nat>): seq<nat> {
    if cs == [] then []
    else if Ignored(cs[0]) then Semantic(cs[1..])
    else [Normalized(cs[0])] + Semantic(cs[1..])
  }

  /** The identity of a spelling: its normalized scalars; nothing when it is not UTF-8. */
  function Identity(text: seq<Byte>): Option<seq<nat>> {
    var cs := DecodeAll(text);
    if cs.None? then None else Some(Semantic(cs.value))
  }

  /** What one step of the comparison finds: an invalid byte, the end, or the next significant scalar. */
  datatype Step = Invalid | End | Next(scalar: nat, offset: nat)

  /** The step that the identity of the remaining text prescribes. */
  ghost predicate StepMeans(text: seq<Byte>, step: Step) {
    match step
    case Invalid => Identity(text).None?
    case End => Identity(text) == Some([])
    case Next(c, n) =>
      && 0 < n <= |text|
      && (Identity(text).Some? <==> Identity(text[n..]).Some?)
      && (Identity(text).Some? ==> Identity(text).value == [c] + Identity(text[n..]).value)
  }

  lemma SkipOne(text: seq<Byte>)
    requires text != []
    ensures Decode(text).None? ==> DecodeAll(text).None?
    ensures Decode(text).Some? ==> ScalarSkipped(text, Decode(text).value)
  {
    var d := Decode(text);
    if d.Some? {
      var rest := text[d.value.width..];
      if DecodeAll(rest).Some? {
        var cs := DecodeAll(text).value;
        assert cs[0] == d.value.scalar && cs[1..] == DecodeAll(rest).value;
      }
    }
  }

  /** How the identity of a text follows from its first scalar and the rest. */
  ghost predicate ScalarSkipped(text: seq<Byte>, d: Decoded) {
    && 0 < d.width <= |text|
    && (Ignored(d.scalar) ==> Identity(text) == Identity(text[d.width..]))
    && (!Ignored(d.scalar) ==> StepMeans(text, Next(Normalized(d.scalar), d.width)))
  }

  lemma EmptyIdentity()
    ensures Identity([]) == Some([])
  {
  }

  /** The next significant scalar, skipping ignored ones. */
  method NextSemanticScalar(text: seq<Byte>, start: nat) returns (step: Step)
    requires start <= |text|
    ensures step.Next? ==> start < step.offset <= |text|
    ensures StepMeans(text[start..], if step.Next? then Next(step.scalar, step.offset - start) else step)
  {
    hide Decode, DecodeAll, Semantic;
    var offset := start;
    while offset < |text|
      invariant start <= offset <= |text|
      invariant Identity(text[start..]) == Identity(text[offset..])
    {
      SkipOne(text[offset..]);
      var d := DecodeScalar(text[offset..]);
      if d.None? {
        return Invalid;
      }
      assert text[offset..][d.value.width..] == text[offset + d.value.width..];
      offset := offset + d.value.width;
      if !Ignored(d.value.scalar) {
        assert text[start..][offset - start..] == text[offset..];
        return Next(Normalized(d.value.scalar), offset);
      }
    }
    assert text[offset..] == [];
    EmptyIdentity();
    return End;
  }

  /** Whether an identifier has a significant scalar at all. */
  method HasContent(text: seq<Byte>) returns (content: bool)
    ensures Identity(text).Some? ==> (content <==> Identity(text).value != [])
  {
    var step := NextSemanticScalar(text, 0);
    assert text[0..] == text;
    content := step.Next?;
  }

  ghost predicate SameIdentity(left: seq<Byte>, right: seq<Byte>) {
    Identity(left).Some? && Identity(left) == Identity(right)
  }

  /** What one step on each side says about the two identities. */
  lemma StepsDecide(left: seq<Byte>, right: seq<Byte>, l: Step, r: Step)
    requires StepMeans(left, l) && StepMeans(right, r)
    ensures
      if l.Invalid? || r.Invalid? then !SameIdentity(left, right)
      else if l.End? || r.End? then SameIdentity(left, right) <==> l.End? && r.End?
      else if l.scalar != r.scalar then !SameIdentity(left, right)
      else SameIdentity(left, right) <==> SameIdentity(left[l.offset..], right[r.offset..])
  {
    hide Identity;
    if l.Next? && r.Next? && Identity(left).Some? && Identity(right).Some? {
      var a, b := Identity(left[l.offset..]).value, Identity(right[r.offset..]).value;
      assert ([l.scalar] + a)[0] == l.scalar && ([r.scalar] + b)[0] == r.scalar;
      assert ([l.scalar] + a)[1..] == a && ([r.scalar] + b)[1..] == b;
    }
  }

  /** The streaming comparison decides equality of identities; an invalid spelling equals nothing, not even itself. */
  method Equals(left: seq<Byte>, right: seq<Byte>) returns (same: bool)
    ensures same <==> Identity(left).Some? && Identity(left) == Identity(right)
  {
    hide Identity, StepMeans;
    var i: nat, j: nat := 0, 0;
    assert left[0..] == left && right[0..] == right;
    while true
      invariant i <= |left| && j <= |right|
      invariant SameIdentity(left, right) <==> SameIdentity(left[i..], right[j..])
      decreases |left| - i
    {
      var l := NextSemanticScalar(left, i);
      var r := NextSemanticScalar(right, j);
      StepsDecide(left[i..], right[j..],
                  if l.Next? then Next(l.scalar, l.offset - i) else l,
                  if r.Next? then Next(r.scalar, r.offset - j) else r);
      if l.Invalid? || r.Invalid? {
        return false;
      }
      if l.End? || r.End? {
        return l.End? && r.End?;
      }
      if l.scalar != r.scalar {
        return false;
      }
      assert left[i..][l.offset - i..] == left[l.offset..];
      assert right[j..][r.offset - j..] == right[r.offset..];
      i, j := l.offset, r.offset;
    }
  }

  /** Inserting or removing tatweels and swapping alef forms keeps an identifier's identity. */
  lemma {:induction false} IdentityIgnoresForm(cs: seq<nat>, ds: seq<nat>)
    requires Scalars(cs) && Scalars(ds)
    ensures Identity(EncodeAll(cs)) == Identity(EncodeAll(ds)) <==> Semantic(cs) == Semantic(ds)
  {
    DecodeAllInvertsEncodeAll(cs);
    DecodeAllInvertsEncodeAll(ds);
  }

  lemma {:induction false} SemanticAppends(cs: seq<nat>, ds: seq<nat>)
    ensures Semantic(cs + ds) == Semantic(cs) + Semantic(ds)
  {
    if cs == [] {
      assert cs + ds == ds;
    } else {
      assert (cs + ds)[1..] == cs[1..] + ds;
      SemanticAppends(cs[1..], ds);
    }
  }

  /** Normalizing a normalized identifier changes nothing, so identities are their own identities. */
  lemma {:induction false} SemanticIdempotent(cs: seq<nat>)
    ensures Semantic(Semantic(cs)) == Semantic(cs)
  {
    if cs != [] {
      SemanticIdempotent(cs[1..]);
      if !Ignored(cs[0]) {
        var s := Semantic(cs);
        assert s[0] == Normalized(cs[0]) && s[1..] == Semantic(cs[1..]);
        assert !Ignored(s[0]) && Normalized(s[0]) == s[0];
      }
    }
  }
}
