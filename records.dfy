/** The metadata record the build plugin embeds in every class of a
    dependency, and that the runtime side collects into an SBOM. */
module Records {
  /** ClassportInfo: the annotation's seven elements, in declaration order. */
  datatype ClassportInfo = ClassportInfo(
    sourceProjectId: string,
    isDirectDependency: bool,
    id: string,
    artefact: string,
    group: string,
    version: string,
    childIds: seq<string>)
}
