/**
 Temporary session objects (src/pkcs11/mod.rs): secrets created on a token for one
 call and destroyed again, whichever of the token's functions fail.
 */
module TemporaryObjects {
  import opened Wrappers
  import opened Bytes

  type Handle = nat

  /** A secret-key object; `persistent` is CKA_TOKEN. */
  datatype Object = Object(value: Octets, persistent: bool)

  type Objects = map<Handle, Object>

  datatype Attribute = Value(value: Octets) | OtherAttribute

  /** A call's result. Both errors are the crate's PKCS#11 error; DestroyError is
      the one whose message asks the caller to close the session. */
  datatype Reply = Done(value: Octets) | TokenError | DestroyError

  /** What the token computes; None when the mechanism rejects its input. */
  datatype TokenOps = TokenOps(
    wrap: (Octets, Octets) -> Option<Octets>,
    unwrap: (Octets, Octets) -> Option<Octets>,
    derive: (Octets, Octets) -> Option<Octets>)

  /** How the token answers the calls made for one temporary object: whether
      creating it, wrapping it and destroying it succeed, and which attributes a
      read returns, `true` being a CKA_VALUE. */
  datatype TokenAnswers = TokenAnswers(
    create: bool, wrap: bool, read: Option<seq<bool>>, destroy: bool)

  // ---- Reading a value ----------------------------------------------------

  /** The CKA_VALUE entries of a response, in order. */
  function ValuesOf(attrs: seq<Attribute>): seq<Octets> {
    if attrs == [] then []
    else (if attrs[0].Value? then [attrs[0].value] else []) + ValuesOf(attrs[1..])
  }

  lemma {:induction false} ValuesComeFrom(attrs: seq<Attribute>, v: Octets)
    ensures v in ValuesOf(attrs) <==> Value(v) in attrs
  {
    if attrs != [] {
      ValuesComeFrom(attrs[1..], v);
      assert attrs == [attrs[0]] + attrs[1..];
    }
  }

  /** Attribute i is a CKA_VALUE, and no other is. */
  ghost predicate OnlyValueAt(attrs: seq<Attribute>, i: int) {
    && 0 <= i < |attrs| && attrs[i].Value?
    && forall j :: 0 <= j < |attrs| && j != i ==> !attrs[j].Value?
  }

  lemma {:induction false} NoValues(attrs: seq<Attribute>)
    ensures ValuesOf(attrs) == [] <==> forall i :: 0 <= i < |attrs| ==> !attrs[i].Value?
  {
    if attrs != [] {
      NoValues(attrs[1..]);
      assert attrs == [attrs[0]] + attrs[1..];
    }
  }

  lemma {:induction false} OneValue(attrs: seq<Attribute>)
    ensures |ValuesOf(attrs)| == 1 <==> exists i :: OnlyValueAt(attrs, i)
    ensures forall i :: OnlyValueAt(attrs, i) ==> ValuesOf(attrs) == [attrs[i].value]
  {
    if attrs != [] {
      var rest := attrs[1..];
      assert attrs == [attrs[0]] + rest;
      NoValues(rest);
      OneValue(rest);
      if attrs[0].Value? {
        assert ValuesOf(rest) == [] ==> OnlyValueAt(attrs, 0);
      } else {
        forall i | OnlyValueAt(rest, i)
          ensures OnlyValueAt(attrs, i + 1)
        {
        }
        forall i | OnlyValueAt(attrs, i)
          ensures OnlyValueAt(rest, i - 1)
        {
        }
      }
    }
  }

  /** A response of that shape for an object of that value. */
  function Response(shape: seq<bool>, value: Octets): (attrs: seq<Attribute>)
    ensures |attrs| == |shape|
    ensures forall i :: 0 <= i < |shape| ==> attrs[i] == if shape[i] then Value(value) else OtherAttribute
  {
    seq(|shape|, i requires 0 <= i < |shape| => if shape[i] then Value(value) else OtherAttribute)
  }

  /** Exactly one CKA_VALUE. */
  ghost predicate ExactlyOne(shape: seq<bool>) {
    exists i :: IsOnly(shape, i)
  }

  ghost predicate IsOnly(shape: seq<bool>, i: int) {
    0 <= i < |shape| && shape[i] && forall j :: 0 <= j < |shape| && j != i ==> !shape[j]
  }

  lemma ExtractsOnly(shape: seq<bool>, value: Octets)
    ensures ExactlyOne(shape) <==> exists i :: OnlyValueAt(Response(shape, value), i)
    ensures forall i :: OnlyValueAt(Response(shape, value), i) ==> Response(shape, value)[i].value == value
  {
    var attrs := Response(shape, value);
    forall i | IsOnly(shape, i)
      ensures OnlyValueAt(attrs, i)
    {
    }
    forall i | OnlyValueAt(attrs, i)
      ensures IsOnly(shape, i)
    {
      forall j | 0 <= j < |shape| && j != i
        ensures !shape[j]
      {
        assert !attrs[j].Value?;
      }
    }
  }

  /** `extract_secret_value`: the first CKA_VALUE, if there is no second. */
  method ExtractSecretValue(attrs: seq<Attribute>) returns (r: Option<Octets>)
    ensures r.Some? <==> |ValuesOf(attrs)| == 1
    ensures r.Some? ==> ValuesOf(attrs) == [r.value] && Value(r.value) in attrs
    ensures r.Some? <==> exists i :: OnlyValueAt(attrs, i)
    ensures forall i :: OnlyValueAt(attrs, i) ==> r == Some(attrs[i].value)
  {
    OneValue(attrs);
    r := None;
    var found := 0;
    for i := 0 to |attrs|
      invariant found + |ValuesOf(attrs[i..])| == |ValuesOf(attrs)|
      invariant 0 <= found <= 1
      invariant found == 0 ==> r.None? && ValuesOf(attrs[i..]) == ValuesOf(attrs)
      invariant found == 1 ==> r.Some? && ValuesOf(attrs) == [r.value] + ValuesOf(attrs[i..])
    {
      assert attrs[i..][1..] == attrs[i + 1..];
      if attrs[i].Value? {
        if found == 1 {
          return None;
        }
        found := 1;
        r := Some(attrs[i].value);
      }
    }
    if r.Some? {
      ValuesComeFrom(attrs, r.value);
    }
  }

  // ---- What a call may leave behind ---------------------------------------

  /** Nothing, or one session object more after a failed destroy. */
  ghost predicate Conserved(before: Objects, after: Objects, r: Reply) {
    if r.DestroyError? then
      exists h: Handle, v: Octets :: h !in before && after == before[h := Object(v, false)]
    else
      after == before
  }

  function Leaks(replies: seq<Reply>): nat {
    if replies == [] then 0
    else Leaks(replies[..|replies| - 1]) + if replies[|replies| - 1].DestroyError? then 1 else 0
  }

  /** The objects after each call of a sequence, whatever the calls are. */
  ghost predicate Run(states: seq<Objects>, replies: seq<Reply>) {
    && |states| == |replies| + 1
    && forall i :: 0 <= i < |replies| ==> Conserved(states[i], states[i + 1], replies[i])
  }

  /** Objects that outlive the session. */
  ghost function Persistent(objects: Objects): Objects {
    map h | h in objects && objects[h].persistent :: objects[h]
  }

  lemma OneCall(before: Objects, after: Objects, r: Reply)
    requires Conserved(before, after, r)
    ensures |after| == |before| + if r.DestroyError? then 1 else 0
    ensures forall h :: h in before ==> h in after && after[h] == before[h]
    ensures Persistent(after) == Persistent(before)
  {
    if r.DestroyError? {
      var h: Handle, v: Octets :| h !in before && after == before[h := Object(v, false)];
      assert after.Keys == before.Keys + {h};
    }
  }

  /** Over any sequence of calls nothing present is lost or changed, the number of
      objects grows by one for every destroy failure reported and by nothing else,
      and closing the session leaves what was there before. */
  lemma {:induction false} RunConserves(states: seq<Objects>, replies: seq<Reply>)
    requires Run(states, replies)
    ensures var (first, last) := (states[0], states[|replies|]);
            && |last| == |first| + Leaks(replies)
            && (forall h :: h in first ==> h in last && last[h] == first[h])
            && (Leaks(replies) == 0 ==> last == first)
            && Persistent(last) == Persistent(first)
  {
    if replies != [] {
      var n := |replies| - 1;
      RunConserves(states[..n + 1], replies[..n]);
      OneCall(states[n], states[n + 1], replies[n]);
    }
  }

  lemma UpperBound(used: set<Handle>) returns (b: Handle)
    ensures forall h :: h in used ==> h < b
  {
    if used == {} {
      b := 0;
    } else {
      var last :| last in used;
      b := UpperBound(used - {last});
      b := if b <= last then last + 1 else b;
      forall h | h in used
        ensures h < b
      {
        assert h == last || h in used - {last};
      }
    }
  }

  lemma FreshHandle(used: set<Handle>)
    ensures exists h: Handle :: h !in used
  {
    var bound := UpperBound(used);
    assert bound !in used;
  }

  /** An open session: the objects it can see, and the token's answers. */
  class TokenSession {
    const ops: TokenOps
    var objects: Objects

    constructor (ops: TokenOps, objects: Objects)
      ensures this.ops == ops && this.objects == objects
    {
      this.ops, this.objects := ops, objects;
    }

    // The token's functions, as its answers have them.

    method Create(item: Object, ok: bool) returns (h: Option<Handle>)
      modifies this`objects
      ensures h.Some? <==> ok
      ensures h.None? ==> objects == old(objects)
      ensures h.Some? ==> h.value !in old(objects) && objects == old(objects)[h.value := item]
    {
      if !ok {
        return None;
      }
      FreshHandle(objects.Keys);
      var unused: Handle :| unused !in objects.Keys;
      objects := objects[unused := item];
      return Some(unused);
    }

    method Destroy(h: Handle, ok: bool)
      modifies this`objects
      ensures objects == if ok then old(objects) - {h} else old(objects)
    {
      if ok {
        objects := objects - {h};
      }
    }

    method WrapKey(kek: Handle, h: Handle, ok: bool) returns (r: Option<Octets>)
      ensures r.Some? ==> ok && kek in objects && h in objects
      ensures ok && kek in objects && h in objects ==> r == ops.wrap(objects[kek].value, objects[h].value)
    {
      if !ok || kek !in objects || h !in objects {
        return None;
      }
      r := ops.wrap(objects[kek].value, objects[h].value);
    }

    /** C_UnwrapKey and C_DeriveKey: a new session object holding what the token computed. */
    method CreateFrom(f: (Octets, Octets) -> Option<Octets>, base: Handle, input: Octets, ok: bool)
      returns (h: Option<Handle>)
      modifies this`objects
      ensures h.Some? <==> ok && base in old(objects) && f(old(objects)[base].value, input).Some?
      ensures h.None? ==> objects == old(objects)
      ensures h.Some? ==>
        && h.value !in old(objects)
        && objects == old(objects)[h.value := Object(f(old(objects)[base].value, input).value, false)]
    {
      if base !in objects {
        return None;
      }
      var value := f(objects[base].value, input);
      if value.None? {
        return None;
      }
      h := Create(Object(value.value, false), ok);
    }

    /** C_GetAttributeValue: whatever the shape of the response, its values are the object's. */
    method GetAttributes(h: Handle, read: Option<seq<bool>>) returns (r: Option<seq<Attribute>>)
      ensures r == if h in objects && read.Some? then Some(Response(read.value, objects[h].value)) else None
    {
      if h !in objects || read.None? {
        return None;
      }
      return Some(Response(read.value, objects[h].value));
    }

    // The crate's functions.

    /** `wrap_with_wrap_key`. The key goes through a temporary object; a failed
        destroy is reported before anything else, and is the only thing that leaves
        the object behind. */
    method WrapWithWrapKey(kek: Handle, keyData: Octets, a: TokenAnswers) returns (r: Reply)
      modifies this`objects
      ensures Conserved(old(objects), objects, r)
      ensures r.DestroyError? <==> a.create && !a.destroy
      ensures r.DestroyError? ==> exists h: Handle ::
        h !in old(objects) && objects == old(objects)[h := Object(keyData, false)]
      ensures r.Done? ==> a.create && a.wrap && a.destroy
      ensures kek in old(objects) ==>
        (r.Done? <==> a.create && a.wrap && a.destroy && ops.wrap(old(objects)[kek].value, keyData).Some?)
      ensures r.Done? && kek in old(objects) ==>
        ops.wrap(old(objects)[kek].value, keyData) == Some(r.value)
    {
      var created := Create(Object(keyData, false), a.create);
      if created.None? {
        return TokenError;
      }
      var key := created.value;
      var wrapped := WrapKey(kek, key, a.wrap);
      Destroy(key, a.destroy);
      if !a.destroy {
        return DestroyError;
      }
      assert objects == old(objects);
      if wrapped.None? {
        return TokenError;
      }
      return Done(wrapped.value);
    }

    /** `read_and_destroy_temporary_secret`: destroyed even if reading failed; a failed
        destroy is what the caller is told. */
    method ReadAndDestroy(key: Handle, a: TokenAnswers, ghost before: Objects) returns (r: Reply)
      requires key !in before && key in objects && objects == before[key := objects[key]]
      modifies this`objects
      ensures objects == if a.destroy then before else old(objects)
      ensures r.DestroyError? <==> !a.destroy
      ensures r.Done? <==> a.destroy && a.read.Some? && ExactlyOne(a.read.value)
      ensures r.Done? ==> r.value == old(objects)[key].value
    {
      ghost var secret := objects[key].value;
      var attrs := GetAttributes(key, a.read);
      var value := None;
      if attrs.Some? {
        value := ExtractSecretValue(attrs.value);
        ExtractsOnly(a.read.value, secret);
      }
      Destroy(key, a.destroy);
      if !a.destroy {
        return DestroyError;
      }
      assert objects == before;
      if value.None? {
        return TokenError;
      }
      return Done(value.value);
    }

    /** `unwrap_with_unwrap_key`: the key comes back exactly when it was unwrapped,
        read as one value and destroyed. */
    method UnwrapWithUnwrapKey(kek: Handle, wrapped: Octets, a: TokenAnswers) returns (r: Reply)
      modifies this`objects
      ensures Conserved(old(objects), objects, r)
      ensures var created := a.create && kek in old(objects) && ops.unwrap(old(objects)[kek].value, wrapped).Some?;
              && (r.Done? <==> created && a.read.Some? && ExactlyOne(a.read.value) && a.destroy)
              && (r.DestroyError? <==> created && !a.destroy)
      ensures r.Done? ==>
        kek in old(objects) && ops.unwrap(old(objects)[kek].value, wrapped) == Some(r.value)
      ensures r.DestroyError? ==>
        exists h: Handle ::
          && h !in old(objects)
          && objects == old(objects)[h := Object(ops.unwrap(old(objects)[kek].value, wrapped).value, false)]
    {
      var created := CreateFrom(ops.unwrap, kek, wrapped, a.create);
      if created.None? {
        return TokenError;
      }
      r := ReadAndDestroy(created.value, a, old(objects));
    }

    /** `agree`: the ECDH secret, derived into a temporary object. */
    method Agree(privateKey: Handle, peer: Octets, a: TokenAnswers) returns (r: Reply)
      modifies this`objects
      ensures Conserved(old(objects), objects, r)
      ensures var created :=
                a.create && privateKey in old(objects) && ops.derive(old(objects)[privateKey].value, peer).Some?;
              && (r.Done? <==> created && a.read.Some? && ExactlyOne(a.read.value) && a.destroy)
              && (r.DestroyError? <==> created && !a.destroy)
      ensures r.Done? ==>
        privateKey in old(objects) && ops.derive(old(objects)[privateKey].value, peer) == Some(r.value)
      ensures r.DestroyError? ==>
        exists h: Handle ::
          && h !in old(objects)
          && objects == old(objects)[h := Object(ops.derive(old(objects)[privateKey].value, peer).value, false)]
    {
      var created := CreateFrom(ops.derive, privateKey, peer, a.create);
      if created.None? {
        return TokenError;
      }
      r := ReadAndDestroy(created.value, a, old(objects));
    }

    /** Closing the session purges its session objects, leaked ones included. */
    method Close()
      modifies this`objects
      ensures objects == Persistent(old(objects))
    {
      objects := map h | h in objects && objects[h].persistent :: objects[h];
    }
  }
}
