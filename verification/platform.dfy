/** The compile-time target facts the two registries are gated on. */
module Platform {

  /** The target architecture, as `target_arch` sees it; every other target is `OtherArch`. */
  datatype Arch = X86_64 | Wasm32 | OtherArch
}
