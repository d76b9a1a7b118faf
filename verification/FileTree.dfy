/** What a server root holds: a finite map from relative paths to nodes. */
module FileTree {
  /** A path relative to the root; [] is the root itself. */
  type Path = seq<string>

  /** File contents are opaque to the backup code, so any value type will do. */
  type Content = seq<bv8>

  datatype Node = Directory | Regular(content: Content) | Symlink | Special

  type FileMap = map<Path, Node>
}
