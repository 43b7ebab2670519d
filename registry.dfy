/**
  The alert registry (unt-scan.py, class AlertRegistry): the ordered list of advisory
  identifiers for which an alert has already been printed. The pickle file that holds it
  is modelled by the field `stored`: None when no file exists, Some(ids) for its contents.
*/
module Registry {
  import opened Wrappers

  /** The list a registry starts with: the file's contents, or empty when there is no file. */
  function Loaded(file: Option<seq<string>>): seq<string>
  {
    if file.Some? then file.value else []
  }

  class AlertRegistry {
    /** The in-memory list of registered advisory ids, in registration order. */
    var registry: seq<string>
    /** The contents of the storage file; None when the file does not exist. */
    var stored: Option<seq<string>>

    /**
      Loads the registry from its storage file. A missing file yields an empty registry,
      which is written out at once, so the file exists afterwards.
    */
    constructor (file: Option<seq<string>>)
      ensures registry == Loaded(file)
      ensures file.None? ==> registry == []
      ensures stored == Some(registry)
    {
      match file
      case Some(ids) =>
        registry := ids;
        stored := file;
      case None =>
        registry := [];
        stored := Some([]);
    }

    /** Appends `unt` at the end; earlier entries stay, so duplicates are possible. */
    method Register(unt: string)
      modifies this`registry
      ensures registry == old(registry) + [unt]
      ensures unt in registry
      ensures forall i :: 0 <= i < |old(registry)| ==> registry[i] == old(registry)[i]
    {
      registry := registry + [unt];
    }

    /** Membership test; changes nothing. */
    method IsRegistered(unt: string) returns (found: bool)
      ensures found <==> unt in registry
    {
      found := unt in registry;
    }

    /** Overwrites the storage file with the whole current list. */
    method Save()
      modifies this`stored
      ensures stored == Some(registry)
    {
      stored := Some(registry);
    }
  }

  /**
    Saving and loading again gives back the same list: a registry built from the file
    that Save wrote knows exactly the ids the saved one knew.
  */
  method SaveAndReload(r: AlertRegistry) returns (reloaded: AlertRegistry)
    modifies r
    ensures fresh(reloaded)
    ensures reloaded.registry == r.registry == old(r.registry)
    ensures forall unt :: unt in reloaded.registry <==> unt in old(r.registry)
  {
    r.Save();
    reloaded := new AlertRegistry(r.stored);
  }
}
