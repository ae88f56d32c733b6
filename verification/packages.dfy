/**
 * The values the core works on: installed Go packages and the repositories
 * that group them.
 */
module GoPackages {

  /** An installed Go package with the revisions of the checkout it lives in. */
  datatype GoPackage = GoPackage(importPath: string, localRev: string, remoteRev: string)

  /** A repository root with the packages beneath it, in the order they were grouped. */
  datatype GoPackageRepo = GoPackageRepo(rootPath: string, goPackages: seq<GoPackage>)

  /**
   * A status line as the status presenter prints it: a row of fixed-width status
   * columns followed by the import path, so it always has at least three characters.
   */
  type StatusLine = s: string | |s| >= 3 witness "   "
}
