/**
 * Model of src/socket_io_adaptor/namespace_manager.rs: the map from namespace name to its
 * `IoAdaptor`. `create_namespace` always installs a fresh adaptor, replacing any earlier one.
 */
module NamespaceManagers {
  import opened Wrappers
  import opened RoomTable
  import opened IoAdaptors

  class NamespaceManager<H> {
    var nspAdaptorMap: map<string, IoAdaptor<H>>

    /** Distinct namespaces own distinct managers, so a change to one namespace's sockets leaves every other alone. */
    ghost predicate Separate()
      reads this
    {
      forall n, m :: n in nspAdaptorMap && m in nspAdaptorMap && n != m ==>
        nspAdaptorMap[n].chatRoomManager != nspAdaptorMap[m].chatRoomManager &&
        nspAdaptorMap[n].socketIdManager != nspAdaptorMap[m].socketIdManager
    }

    /** `NamespaceManager::new` (and `Default`): no namespaces. */
    constructor()
      ensures nspAdaptorMap == map[] && Separate()
    {
      nspAdaptorMap := map[];
    }

    /** `create_namespace(nsp)`: a fresh, empty adaptor under `nsp`; every other name keeps its adaptor. */
    method CreateNamespace(nsp: string)
      modifies this
      ensures nsp in nspAdaptorMap && fresh(nspAdaptorMap[nsp])
      ensures fresh(nspAdaptorMap[nsp].chatRoomManager) && fresh(nspAdaptorMap[nsp].socketIdManager)
      ensures nspAdaptorMap[nsp].chatRoomManager.State() == Empty()
      ensures nspAdaptorMap[nsp].socketIdManager.idSocketMap == map[]
      ensures nspAdaptorMap[nsp].Valid() && nspAdaptorMap[nsp].Registered()
      ensures forall n :: n != nsp ==> (n in nspAdaptorMap <==> n in old(nspAdaptorMap))
      ensures forall n :: n != nsp && n in old(nspAdaptorMap) ==> nspAdaptorMap[n] == old(nspAdaptorMap)[n]
      ensures old(Separate()) ==> Separate()
    {
      var adaptor := new IoAdaptor();
      nspAdaptorMap := nspAdaptorMap[nsp := adaptor];
    }

    /**
     * `get_adaptor(nsp)` and `get_adaptor_mut(nsp)`: the adaptor stored under `nsp`, `None`
     * for a name never created.
     */
    function GetAdaptor(nsp: string): (adaptor: Option<IoAdaptor<H>>)
      reads this
      ensures adaptor.Some? <==> nsp in nspAdaptorMap
      ensures adaptor.Some? ==> adaptor.value == nspAdaptorMap[nsp]
    {
      if nsp in nspAdaptorMap then Some(nspAdaptorMap[nsp]) else None
    }
  }
}
