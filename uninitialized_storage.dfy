/** `uninitialized_storage<Ty>`: raw storage for one object and a flag that
    records whether an object lives in it. The allocator's construct and
    destroy calls are parameters: the value a construction produces, or
    None when the object's constructor throws; whether the destructor
    throws. */
module UninitializedStorage {
  import opened Wrappers

  class Storage<T> {
    /** `m_IsInitialized`. */
    var initialized: bool
    /** `m_Strg`: the object last constructed in the storage, if any. */
    var strg: Option<T>

    /** Only the flag is trusted: when it is set, an object was constructed
        in the storage. */
    ghost predicate Valid()
      reads this
    {
      initialized ==> strg.Some?
    }

    /** `uninitialized_storage()`: no object, flag clear. */
    constructor ()
      ensures Valid() && !initialized && strg == None
    {
      initialized := false;
      strg := None;
    }

    /** `uninitialized_storage(alloc, args...)`: constructs the object in
        place and sets the flag. (If the object's constructor throws, the
        exception leaves this constructor and there is no storage.) */
    constructor WithValue(value: T)
      ensures Valid() && initialized && strg == Some(value)
    {
      initialized := true;
      strg := Some(value);
    }

    /** `as_pointer()`: the object, or `bad_storage_access` when the flag is
        clear. */
    function AsPointer(): (r: Result<T>)
      reads this
      requires Valid()
      ensures r.Err? <==> !initialized
      ensures r.Err? ==> r.error == BadStorageAccess
      ensures r.Ok? ==> strg == Some(r.value)
    {
      if !initialized then Err(BadStorageAccess) else Ok(strg.value)
    }

    /** `construct(alloc, args...)`: when the object's constructor returns,
        the object is stored, the flag is set and the result is true; when
        it throws, the exception is caught, the result is false and nothing
        changes. */
    method Construct(made: Option<T>) returns (success: bool)
      requires Valid()
      modifies this
      ensures Valid()
      ensures success <==> made.Some?
      ensures success ==> initialized && strg == made
      ensures !success ==> initialized == old(initialized) && strg == old(strg)
    {
      success := true;
      if made.Some? {
        strg := made;
        initialized := true;
      } else {
        success := false;
      }
    }

    /** `destroy(alloc)`: on an initialised storage the destructor runs and
        the flag is cleared, and the result is true; if the destructor
        throws, the flag stays set and the result is false. On an
        uninitialised storage it does nothing and returns true. */
    method Destroy(destructorThrows: bool) returns (success: bool)
      requires Valid()
      modifies this
      ensures Valid()
      ensures strg == old(strg)
      ensures success <==> !(old(initialized) && destructorThrows)
      ensures success ==> !initialized
      ensures !success ==> initialized
    {
      success := true;
      if initialized {
        if destructorThrows {
          success := false;
        } else {
          initialized := false;
        }
      }
    }
  }

  /** A construction that succeeds makes `as_pointer` return the new object,
      and a successful `destroy` makes it fail again. */
  method ConstructThenDestroy<T>(s: Storage<T>, value: T) returns (during: Result<T>, after: Result<T>)
    requires s.Valid()
    modifies s
    ensures during == Ok(value)
    ensures after == Err(BadStorageAccess)
  {
    var constructed := s.Construct(Some(value));
    during := s.AsPointer();
    var destroyed := s.Destroy(false);
    after := s.AsPointer();
  }
}
