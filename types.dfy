/**
 * Identity and value types shared by the reconciliation engine and the runner:
 * container names, the (cut-down) declarative container configuration, containers
 * and the three kinds of lifecycle action.
 */
module Types {

  datatype Option<+T> = None | Some(value: T)

  datatype Result<+R, +E> = Ok(value: R) | Err(error: E)

  /** A container's identity: the namespace it belongs to and its name inside it. */
  datatype ContainerName = ContainerName(namespace: string, name: string)

  /** Runtime status as reported by the runtime. */
  datatype ContainerState = ContainerState(running: bool)

  /**
   * The declarative container specification, cut down to one attribute of every kind the
   * comparator distinguishes: plain strings, a pointer-valued scalar (None is a nil pointer),
   * a list and a map that may be absent (None is a nil slice or map), and the volumes-from
   * list that carries the dependencies.
   */
  datatype ConfigContainer = ConfigContainer(
    image: string,
    cpusetCpus: string,
    cpuShares: Option<int>,
    dns: Option<seq<string>>,
    labels: Option<map<string, string>>,
    volumesFrom: seq<ContainerName>)

  /** The zero value of ConfigContainer: every attribute unset. */
  const EMPTY_CONFIG := ConfigContainer("", "", None, None, None, [])

  /** A desired container (from configuration) or an actual one (from the runtime). */
  datatype Container = Container(name: ContainerName, state: ContainerState, config: ConfigContainer)

  /** One lifecycle step of a plan. */
  datatype Action = Create(container: Container) | Remove(container: Container) | Ensure(container: Container)
  {
    /** The name of the container the action acts on. */
    function Target(): ContainerName {
      container.name
    }

    /**
     * The names whose actions must have succeeded before this action may run: a Create
     * waits for an earlier action on its own name (the Remove of a recreate) and for the
     * containers it takes volumes from. Remove and Ensure wait for nothing.
     */
    function Prereqs(): set<ContainerName> {
      if Create? then {container.name} + (set n | n in container.config.volumesFrom) else {}
    }
  }

  /** The set of names of a sequence of containers. */
  function Names(cs: seq<Container>): set<ContainerName> {
    set c | c in cs :: c.name
  }

  /** No two containers of the sequence share a name. */
  predicate UniqueNames(cs: seq<Container>) {
    forall i, j :: 0 <= i < j < |cs| ==> cs[i].name != cs[j].name
  }
}
