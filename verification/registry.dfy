/** The metric registry, reduced to what registration decides: the set of
 *  metric names registered so far.  Registering a name that is already there
 *  fails and leaves the registry as it was. */
module Registry {
  import opened Wrappers

  datatype RegistryError = AlreadyRegistered(name: string)

  class Registry {
    var names: set<string>

    /** `Registry::new`: an empty registry. */
    constructor ()
      ensures names == {}
    {
      names := {};
    }

    /** `Registry::register` for one metric, identified by its name. */
    method Register(name: string) returns (r: Result<(), RegistryError>)
      modifies this
      ensures r.Ok? <==> name !in old(names)
      ensures r.Ok? ==> names == old(names) + {name}
      ensures r.Err? ==> names == old(names) && r.error == AlreadyRegistered(name)
    {
      if name in names {
        return Err(AlreadyRegistered(name));
      }
      names := names + {name};
      return Ok(());
    }
  }
}
