/** Where things live on disk, as paths made of components. */
module Layout {

  /** A file-system path as its list of components (`os.path.join` appends one). */
  type Path = seq<string>

  /** `os.path.join(BUILDS_DIR, name)`: a build's own directory, its game directory. */
  function BuildPath(buildsDir: Path, name: string): Path
  {
    buildsDir + [name]
  }
}
