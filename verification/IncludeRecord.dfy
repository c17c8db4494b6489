/** The record that src/include.h keeps for every file included, as far as it is modelled. */
module IncludeRecords {

  datatype Handling = Default | Elide | Keep

  class Include {
    const fileId: nat             // the unique file ID
    const file: nat               // the CXFile that it was first included as
    const basename: string
    var includer: Include?
    var proxy: Include?
    var depth: nat
    var lines: seq<nat>
    var handling: Handling
    var isNeeded: bool
    var isProxyExplicit: bool

    constructor (fileId: nat, file: nat, basename: string)
      ensures this.fileId == fileId && this.file == file && this.basename == basename
      ensures includer == null && proxy == null && depth == 0 && lines == []
      ensures handling == Default && !isNeeded && !isProxyExplicit
    {
      this.fileId, this.file, this.basename := fileId, file, basename;
      includer, proxy, depth, lines := null, null, 0, [];
      handling, isNeeded, isProxyExplicit := Default, false, false;
    }
  }
}
