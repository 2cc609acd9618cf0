/** Constants of param.h and fs.h that several modules need. */
module Params {
  const ROOTDEV := 1
  const ROOTINO := 1
  const DIRSIZ := 14
}
