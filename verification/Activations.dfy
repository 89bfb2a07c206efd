/** The per-evaluation binding set (eval/activation.cc): eager values, lazy binders and the memo of
    what the binders produced. */
module Activations {
  import opened Machine
  import opened Values
  import opened Counting

  type Name = string

  /** The well-known message types that the marshal peels, and all others. */
  datatype Message =
    | BoolWrapper | IntWrapper | UintWrapper | DoubleWrapper | StringWrapper | BytesWrapper
    | DurationMessage | TimestampMessage
    | PlainMessage

  datatype Kind =
    | NullKind | BoolKind | IntKind | UintKind | DoubleKind
    | StringKind | BytesKind | TypeKind
    | DurationKind | TimestampKind
    | ListKind | MapKind | MessageKind(message: Message)
    | OtherKind

  /** What the marshal looks at in a bound value: its kind and, for texts and the wrappers around them,
      the bytes. Host texts have no length limit. */
  datatype Bound = Bound(kind: Kind, payload: seq<Byte>)

  datatype Resolution = Found(bound: Bound) | Missing | Failed

  /** So far in this evaluation, the binders that ran are exactly those with a memo, once each. */
  ghost predicate InStep(cache: map<Name, Bound>, invoked: seq<Name>) {
    Distinct(invoked) && forall n :: n in invoked <==> n in cache
  }

  ghost predicate Extends(before: map<Name, Bound>, after: map<Name, Bound>) {
    forall n :: n in before ==> n in after && after[n] == before[n]
  }

  /** Effect of one resolution on the memo and on the log of binder runs. */
  ghost predicate Resolves(name: Name, cache: map<Name, Bound>, invoked: seq<Name>,
                           cache': map<Name, Bound>, invoked': seq<Name>, failed: bool)
  {
    && Extends(cache, cache')
    && (forall n :: n in cache' ==> n in cache || n == name)
    && (forall n :: n in invoked' ==> n in invoked || n == name)
    && (InStep(cache, invoked) ==> Distinct(invoked'))
    && (InStep(cache, invoked) && !failed ==> InStep(cache', invoked'))
  }

  lemma RunOrNot(name: Name, cache: map<Name, Bound>, invoked: seq<Name>,
                 cache': map<Name, Bound>, invoked': seq<Name>, failed: bool)
    requires || (cache' == cache && invoked' == invoked && !failed)
             || (name !in cache && invoked' == invoked + [name] && if failed then cache' == cache
                 else name in cache' && cache' == cache[name := cache'[name]])
    ensures Resolves(name, cache, invoked, cache', invoked', failed)
  {
  }

  class Activation {
    var bindings: map<Name, Bound>
    var binders: map<Name, nat>
    var cache: map<Name, Bound>
    ghost var invoked: seq<Name>

    /** The two maps never both answer for a name, and every memo has its binder. */
    ghost predicate Valid()
      reads this
    {
      bindings.Keys !! binders.Keys && cache.Keys <= binders.Keys
    }

    /** The values that are at hand without running a binder. */
    ghost function Known(): map<Name, Bound>
      reads this
    {
      bindings + cache
    }

    constructor ()
      ensures Valid() && Known() == map[] && binders == map[] && InStep(cache, invoked)
    {
      bindings, binders, cache, invoked := map[], map[], map[], [];
    }

    method Bind(name: Name, value: Bound)
      requires Valid()
      modifies this`bindings, this`binders, this`cache
      ensures Valid()
      ensures bindings == old(bindings)[name := value]
      ensures binders == old(binders) - {name} && cache == old(cache) - {name}
      ensures Known() == old(Known())[name := value]
    {
      binders := binders - {name};
      cache := cache - {name};
      bindings := bindings[name := value];
    }

    method BindLazy(name: Name, binder: nat)
      requires Valid()
      modifies this`bindings, this`binders, this`cache
      ensures Valid()
      ensures bindings == old(bindings) - {name} && cache == old(cache) - {name}
      ensures binders == old(binders)[name := binder]
      ensures Known() == old(Known()) - {name}
    {
      bindings := bindings - {name};
      cache := cache - {name};
      binders := binders[name := binder];
    }

    /** A binder is foreign code: it may fail, and two runs may produce different values. */
    method Invoke(name: Name) returns (produced: Option<Bound>)
      requires name in binders
      modifies this`invoked
      ensures invoked == old(invoked) + [name]
    {
      invoked := invoked + [name];
      produced := *;
    }

    method Resolve(name: Name) returns (r: Resolution)
      requires Valid()
      modifies this`cache, this`invoked
      ensures Valid()
      ensures name in old(Known()) ==> r == Found(old(Known())[name]) && cache == old(cache) && invoked == old(invoked)
      ensures name !in old(Known()) && name !in binders ==> r == Missing && cache == old(cache) && invoked == old(invoked)
      ensures name !in old(Known()) && name in binders ==>
        !r.Missing? && invoked == old(invoked) + [name] &&
        cache == if r.Found? then old(cache)[name := r.bound] else old(cache)
      ensures Resolves(name, old(cache), old(invoked), cache, invoked, r.Failed?)
    {
      hide Resolves;
      if name in bindings {
        RunOrNot(name, cache, invoked, cache, invoked, false);
        return Found(bindings[name]);
      }
      if name in cache {
        RunOrNot(name, cache, invoked, cache, invoked, false);
        return Found(cache[name]);
      }
      if name !in binders {
        RunOrNot(name, cache, invoked, cache, invoked, false);
        return Missing;
      }
      var produced := Invoke(name);
      if produced.None? {
        RunOrNot(name, old(cache), old(invoked), cache, invoked, true);
        return Failed;
      }
      cache := cache[name := produced.value];
      RunOrNot(name, old(cache), old(invoked), cache, invoked, false);
      r := Found(cache[name]);
    }

    method ClearLazyCache()
      requires Valid()
      modifies this`cache, this`invoked
      ensures Valid() && cache == map[] && invoked == [] && InStep(cache, invoked)
    {
      cache := map[];
      invoked := [];
    }
  }
}
