/**
 * `ArcSingleton` (src/singleton.ts): the one slot that holds the services
 * of the live `ArcRoot`. Registering a second root while one is live
 * throws; unregistering clears the slot; a partial registration is filled
 * in with a fresh state container and a fresh default scroll registry.
 */
module Singletons {
  import opened Wrappers
  import opened Dom
  import opened StateContainers
  import opened ScrollRegistries

  /**
   * `IArcServices`. The element store is any `IElementStore`; the model
   * keeps only its identity, and `None` stands for the `undefined` that
   * `services.elementStore!` lets through.
   */
  datatype Services = Services(elementStore: Option<object>, stateContainer: StateContainer, scrollRegistry: ScrollRegistry)

  /** `Partial<IArcServices>`: `None` is a key the caller did not give. */
  datatype PartialServices = PartialServices(
    elementStore: Option<object>,
    stateContainer: Option<StateContainer>,
    scrollRegistry: Option<ScrollRegistry>)

  /**
   * The object `setServices` builds: the defaults first, then every field
   * the caller gave spread over them.
   */
  function Merge(p: PartialServices, defaultContainer: StateContainer, defaultRegistry: ScrollRegistry): (s: Services)
  {
    Services(
      p.elementStore,
      if p.stateContainer.Some? then p.stateContainer.value else defaultContainer,
      if p.scrollRegistry.Some? then p.scrollRegistry.value else defaultRegistry)
  }

  const SecondRootError := "Attempted to register a second <ArcRoot /> without destroying the first one. Only one arcade-machine root component may be used at once."
  const NoRootError := "You cannot use arcade-machine functionality without an <ArcRoot />."

  class ArcSingleton {
    var services: Option<Services>

    /** The module-level `instance`: nothing registered yet. */
    constructor ()
      ensures services.None?
    {
      services := None;
    }

    /**
     * `setServices(services)`. The document's scrolling element and body
     * are what `new ScrollRegistry()` reads.
     */
    method SetServices(given: Option<PartialServices>, scrollingElement: Option<Node>, body: Node) returns (err: Option<string>)
      modifies this
      ensures old(services).Some? && given.Some? ==> err == Some(SecondRootError) && services == old(services)
      ensures !(old(services).Some? && given.Some?) ==> err.None?
      ensures old(services).None? && given.Some? ==>
        services.Some? &&
        exists c: StateContainer, r: ScrollRegistry ::
          services.value == Merge(given.value, c, r) &&
          fresh(c) && c.Valid() && c.registrations == map[] &&
          fresh(r) && r.containers == DefaultContainers(scrollingElement, body)
      ensures given.None? ==> services.None?
    {
      if services.Some? && given.Some? {
        return Some(SecondRootError);
      }
      err := None;
      if given.None? {
        services := None;
        return;
      }
      var r := new ScrollRegistry.Default(scrollingElement, body);
      var c := new StateContainer();
      services := Some(Merge(given.value, c, r));
    }

    /** `getServices()`: the services, or the error it throws when no root is registered. */
    function GetServices(): (r: Result<Services, string>)
      reads this
      ensures r.Ok? <==> services.Some?
      ensures r.Ok? ==> services == Some(r.value)
      ensures r.Err? ==> r.error == NoRootError
    {
      if services.None? then Err(NoRootError) else Ok(services.value)
    }
  }
}
