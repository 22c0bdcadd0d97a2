/**
 * The component type registry (ComponentTraitsBase / ComponentTraits): one
 * counter hands out the ids 0, 1, 2, ... to component types in the order in
 * which they first ask, each type keeps the id it got, and no more than
 * COMP_TOTAL ids are ever handed out.
 */
module ComponentTraits {
  import opened Wrappers

  /** The name of a component type: the C of ComponentTraits<C>. */
  type TypeName = string

  /** ComponentCountError, thrown once COMP_TOTAL ids exist. */
  datatype ComponentCountError = ComponentCountError(message: string)

  const CountErrorMessage: string := "Attempt to create more than the maximum number of components."

  /**
   * The registry's invariant: `counter` ids have been handed out, one to each
   * registered type, all distinct and below the counter, which never passes
   * `total`.
   */
  ghost predicate RegistryInv(ids: map<TypeName, nat>, counter: nat, total: nat)
  {
    && counter <= total
    && |ids| == counter
    && (forall t :: t in ids ==> ids[t] < counter)
    && (forall t, u :: t in ids && u in ids && t != u ==> ids[t] != ids[u])
  }

  /** Registering a new type under the current counter value keeps the invariant. */
  lemma RegisterKeepsInv(ids: map<TypeName, nat>, counter: nat, total: nat, t: TypeName)
    requires RegistryInv(ids, counter, total) && t !in ids && counter < total
    ensures RegistryInv(ids[t := counter], counter + 1, total)
  {
  }

  /**
   * The registry shared by every component type: the static idCounter of
   * newID and, per type, the id its getID remembers.
   */
  class TypeRegistry {
    /** COMP_TOTAL */
    const total: nat
    /** idCounter */
    var counter: nat
    /** the id each type's getID has stored */
    var ids: map<TypeName, nat>

    ghost predicate Valid()
      reads this
    {
      RegistryInv(ids, counter, total)
    }

    /** A registry in which no type has asked for an id yet. */
    constructor (total: nat)
      ensures Valid() && this.total == total && counter == 0 && ids == map[]
    {
      this.total := total;
      counter := 0;
      ids := map[];
    }

    /** newID: the next counter value, or ComponentCountError once COMP_TOTAL ids exist. */
    method NewID() returns (r: Result<nat, ComponentCountError>)
      modifies this
      ensures old(counter) < total ==> r == Ok(old(counter)) && counter == old(counter) + 1
      ensures old(counter) >= total ==> r == Err(ComponentCountError(CountErrorMessage)) && counter == old(counter)
      ensures ids == old(ids)
    {
      if counter < total {
        r := Ok(counter);
        counter := counter + 1;
      } else {
        r := Err(ComponentCountError(CountErrorMessage));
      }
    }

    /**
     * getID: a type that already has an id gets it again and nothing changes;
     * a new type gets the next id from newID, which is remembered; when newID
     * throws, nothing is remembered, so the next request for that type asks
     * newID again and throws again.
     */
    method GetID(t: TypeName) returns (r: Result<nat, ComponentCountError>)
      requires Valid()
      modifies this
      ensures Valid()
      ensures t in old(ids) ==> r == Ok(old(ids)[t]) && ids == old(ids) && counter == old(counter)
      ensures t !in old(ids) && old(counter) < total ==>
                r == Ok(old(counter)) && ids == old(ids)[t := old(counter)] && counter == old(counter) + 1
      ensures t !in old(ids) && old(counter) >= total ==>
                r == Err(ComponentCountError(CountErrorMessage)) && ids == old(ids) && counter == old(counter)
      ensures r.Ok? ==> r.value < total && t in ids && ids[t] == r.value
    {
      if t in ids {
        r := Ok(ids[t]);
      } else {
        if counter < total {
          RegisterKeepsInv(ids, counter, total, t);
        }
        r := NewID();
        if r.Ok? {
          ids := ids[t := r.value];
        }
      }
    }
  }

  /**
   * With COMP_TOTAL = 2: the first two types get 0 and 1, a repeated request
   * returns the stored id, and a third type is refused on every attempt.
   */
  method RegistryScenario() returns (a: Result<nat, ComponentCountError>, b: Result<nat, ComponentCountError>,
                                     again: Result<nat, ComponentCountError>,
                                     c1: Result<nat, ComponentCountError>, c2: Result<nat, ComponentCountError>)
    ensures a == Ok(0) && b == Ok(1) && again == Ok(0)
    ensures c1.Err? && c2.Err? && c1.error.message == CountErrorMessage
  {
    var reg := new TypeRegistry(2);
    a := reg.GetID("Position");
    b := reg.GetID("Velocity");
    again := reg.GetID("Position");
    c1 := reg.GetID("Health");
    c2 := reg.GetID("Health");
  }
}
