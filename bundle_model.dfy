/** The bundle record the bootstrap steps work on: a name, opaque parameters and
    component options, lifecycle hooks and nested dependency bundles. Values the
    dependency-injection container interprets (invocations, options, parameters)
    are opaque tokens here. */
module BundleModel {

  /** A Go value that may be nil: None stands for nil. */
  datatype Option<+T> = None | Some(value: T)

  /** A function the container can invoke (di.Invocation). */
  datatype Invocation = Invocation(id: nat)

  /** A configuration parameter structure (slice.Parameter). */
  datatype Parameter = Parameter(id: nat)

  /** A container option registering components (di.Option). */
  datatype Component = Component(id: nat)

  /** A start/shutdown hook pair; either half may be nil. */
  datatype Hook = Hook(beforeStart: Option<Invocation>, beforeShutdown: Option<Invocation>)

  /** slice.Bundle: a named unit with its own dependencies, which are bundles of
      the same shape. */
  datatype Bundle = Bundle(
    name: string,
    parameters: seq<Parameter>,
    components: seq<Component>,
    hooks: seq<Hook>,
    bundles: seq<Bundle>)

  /** A Go error, seen through its Error() message. */
  datatype Error = Error(message: string)
}
