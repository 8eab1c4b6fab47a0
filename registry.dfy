/**
 * DebugInstanceRegistry: a cache from a type to the one instance made for it.
 * A lookup returns the cached instance; on a miss it tries to default-construct
 * one (Activator.CreateInstance, here an oracle the caller supplies), caches and
 * returns it on success, and on failure logs an error and returns null without
 * caching anything, so the next lookup tries again.
 */
module Registry {
  import opened Wrappers
  import opened Reflection

  /** An object made by default construction of a type. */
  class Instance {
    const ofType: TypeId

    constructor (t: TypeId)
      ensures ofType == t
    {
      ofType := t;
    }
  }

  class InstanceRegistry {
    /** The `_instances` dictionary. */
    var instances: map<TypeId, Instance>
    /** One entry per logged construction failure ("Failed to create instance of ..."). */
    var errors: seq<TypeId>
    /** The types default construction was attempted for, in order. */
    ghost var attempts: seq<TypeId>

    /** Every cached instance was constructed for the type it is cached under. */
    ghost predicate Valid()
      reads this
    {
      forall t :: t in instances ==> instances[t].ofType == t
    }

    constructor ()
      ensures Valid()
      ensures instances == map[] && errors == [] && attempts == []
    {
      instances, errors, attempts := map[], [], [];
    }

    /**
     * GetInstance. `constructs` says whether default construction of `t`
     * succeeds on this call.
     */
    method GetInstance(t: TypeId, constructs: bool) returns (instance: Option<Instance>)
      requires Valid()
      modifies this
      ensures Valid()
      // cache hit: the cached object, nothing constructed, nothing changed
      ensures t in old(instances) ==>
                instance == Some(old(instances)[t]) && instances == old(instances)
                && errors == old(errors) && attempts == old(attempts)
      // cache miss: exactly one construction attempt
      ensures t !in old(instances) ==> attempts == old(attempts) + [t]
      ensures t !in old(instances) && constructs ==>
                instance.Some? && fresh(instance.value) && instance.value.ofType == t
                && instances == old(instances)[t := instance.value] && errors == old(errors)
      ensures t !in old(instances) && !constructs ==>
                instance == None && instances == old(instances) && errors == old(errors) + [t]
      // existing entries are never replaced or removed
      ensures forall u :: u in old(instances) ==> u in instances && instances[u] == old(instances)[u]
      // whatever is returned is what the next lookup of `t` returns
      ensures instance.Some? ==> t in instances && instances[t] == instance.value
      ensures instance.None? <==> t !in instances
    {
      if t in instances {
        return Some(instances[t]);
      }
      attempts := attempts + [t];
      if constructs {
        var created := new Instance(t);
        Add(t, created);
        return Some(created);
      }
      errors := errors + [t];
      return None;
    }

    /**
     * Two lookups of the same type: once the first one has produced an instance,
     * the second returns that very object and constructs nothing.
     */
    method GetInstanceTwice(t: TypeId, constructsFirst: bool, constructsSecond: bool)
      returns (first: Option<Instance>, second: Option<Instance>)
      requires Valid()
      modifies this
      ensures Valid()
      ensures first.Some? ==> second == first && instances == old(instances)[t := first.value]
      ensures first.Some? && t !in old(instances) ==> attempts == old(attempts) + [t]
      ensures first.None? ==> attempts == old(attempts) + [t, t]
    {
      first := GetInstance(t, constructsFirst);
      second := GetInstance(t, constructsSecond);
    }

    /** Dictionary.Add, which the source reaches only after a failed lookup. */
    method Add(t: TypeId, instance: Instance)
      requires t !in instances
      modifies this`instances
      ensures instances == old(instances)[t := instance]
    {
      instances := instances[t := instance];
    }
  }
}
