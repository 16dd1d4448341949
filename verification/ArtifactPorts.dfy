/** The table of typed ports through which jobs hand values to each other. */
module ArtifactPorts {
  import opened Optional

  datatype TypedPort =
    TypedPort(name: string, portKind: string, targetType: string, value: string, contextId: string)

  datatype PortError = PortEmpty | VersionContextMismatch | PortDuplicate

  type PortTable = map<string, TypedPort>

  /** Names are never removed and never rebound to another port. */
  ghost predicate Grows(before: PortTable, after: PortTable) {
    forall name :: name in before ==> name in after && after[name] == before[name]
  }

  lemma GrowsTrans(a: PortTable, b: PortTable, c: PortTable)
    requires Grows(a, b) && Grows(b, c)
    ensures Grows(a, c)
  {
  }

  predicate Foreign(contextId: string, port: TypedPort) {
    contextId != "" && port.contextId != contextId
  }

  /** The complaint about a port that may not be published. */
  function WhyRejected(contextId: string, port: TypedPort): PortError {
    if port.name == "" || port.value == "" then PortEmpty
    else if Foreign(contextId, port) then VersionContextMismatch
    else PortDuplicate
  }

  class PortRegistry {
    var ports: PortTable
    var contextId: string

    constructor ()
      ensures Valid() && ports == map[] && contextId == ""
    {
      ports, contextId := map[], "";
    }

    /** Every entry is a named, non-empty port of the bound context. */
    ghost predicate Valid()
      reads this
    {
      forall name :: name in ports ==>
        && ports[name].name == name != "" && ports[name].value != ""
        && !Foreign(contextId, ports[name])
    }

    method BindContext(context: string) returns (error: Option<PortError>)
      requires Valid()
      modifies this`contextId
      ensures Valid()
      ensures error.None? <==> context != "" && (old(contextId) == "" || old(contextId) == context)
                               && forall name :: name in ports ==> ports[name].contextId == context
      ensures contextId == if error.None? then context else old(contextId)
      ensures error.Some? ==> error.value == VersionContextMismatch
    {
      if context == "" || (contextId != "" && contextId != context) {
        return Some(VersionContextMismatch);
      }
      if exists name :: name in ports && ports[name].contextId != context {
        return Some(VersionContextMismatch);
      }
      contextId := context;
      error := None;
    }

    /** Publishing the same port again is allowed, a different one under its name is not. */
    method Publish(port: TypedPort) returns (error: Option<PortError>)
      requires Valid()
      modifies this`ports
      ensures Valid() && Grows(old(ports), ports)
      ensures error.None? <==> port.name != "" && port.value != "" && (contextId == "" || port.contextId == contextId)
                               && (port.name in old(ports) ==> old(ports)[port.name] == port)
      ensures error == Some(PortEmpty) <==> port.name == "" || port.value == ""
      ensures error == Some(VersionContextMismatch) <==>
                port.name != "" && port.value != "" && contextId != "" && port.contextId != contextId
      ensures ports == if error.None? then old(ports)[port.name := port] else old(ports)
      ensures error.Some? ==> error.value == WhyRejected(contextId, port)
    {
      if port.name == "" || port.value == "" {
        return Some(PortEmpty);
      }
      if Foreign(contextId, port) {
        return Some(VersionContextMismatch);
      }
      if port.name in ports && ports[port.name] != port {
        return Some(PortDuplicate);
      }
      ports := ports[port.name := port];
      error := None;
    }

    predicate Has(name: string)
      reads this
    {
      name in ports
    }
  }
}
