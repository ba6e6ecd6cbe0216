/**
  The remote API as seen by the reconciler: parsing an apiVersion into a
  group and version, mapping a group and kind to a resource endpoint, and
  fetching a named object from a namespace. All three are opaque oracles;
  only the fetch can tell "not found" apart from other failures.
*/
module Remote {
  import opened Wrappers
  import opened Objects

  datatype GroupVersion = GroupVersion(group: string, version: string)

  /** Outcome of resolving one owner: the live owner, or a classified failure. */
  datatype Lookup = Found(owner: Owner) | NotFound | OtherError

  datatype Remote = Remote(
    /** `schema.ParseGroupVersion`: None for a malformed apiVersion. */
    parseGroupVersion: string -> Option<GroupVersion>,
    /** REST mapping of (group, kind, version) to a resource endpoint; None when unknown. */
    restMapping: (string, string, string) -> Option<string>,
    /** Fetch of (resource, namespace, name) through the dynamic client. */
    get: (string, string, string) -> Lookup)

  /**
    Resolve an owner descriptor in a namespace without any cache: parse the
    apiVersion, map the kind to a resource, fetch the object. A malformed
    apiVersion or an unknown kind is a generic failure, never "not found".
  */
  function Resolve(remote: Remote, namespace: string, d: Descriptor): (r: Lookup)
    ensures remote.parseGroupVersion(d.apiVersion).None? ==> r == OtherError
    ensures remote.parseGroupVersion(d.apiVersion).Some? ==>
              var gv := remote.parseGroupVersion(d.apiVersion).value;
              remote.restMapping(gv.group, d.kind, gv.version).None? ==> r == OtherError
    ensures remote.parseGroupVersion(d.apiVersion).Some? ==>
              var gv := remote.parseGroupVersion(d.apiVersion).value;
              remote.restMapping(gv.group, d.kind, gv.version).Some? ==>
                r == remote.get(remote.restMapping(gv.group, d.kind, gv.version).value, namespace, d.name)
  {
    match remote.parseGroupVersion(d.apiVersion)
    case None => OtherError
    case Some(gv) =>
      match remote.restMapping(gv.group, d.kind, gv.version)
      case None => OtherError
      case Some(resource) => remote.get(resource, namespace, d.name)
  }
}
