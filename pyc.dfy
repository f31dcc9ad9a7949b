/** The collaborators the driver calls but whose code is not part of this
    model: the module loader (`PycModule`) and the renderer
    (`output_object`). They appear only through the values they hand back. */
module Pyc {

  /** What a loaded module reports through `majorVer()`, `minorVer()` and `isUnicode()`. */
  datatype ModuleInfo = ModuleInfo(major: int, minor: int, unicode: bool)

  /** `disasm_flags`: an `unsigned` bit set of rendering options. */
  type Flags = bv32

  /** `Pyc::DISASM_PYCODE_VERBOSE` and `Pyc::DISASM_SHOW_CACHES`: two distinct single bits. */
  const DisasmPycodeVerbose: Flags := 0x1
  const DisasmShowCaches: Flags := 0x2

  /** `flags |= bit`. */
  function WithFlag(flags: Flags, bit: Flags): Flags
  {
    flags | bit
  }

  /** A loader call that either returns a module or throws (`std::exception::what()`). */
  datatype LoadOutcome = LoadThrew(message: string) | Loaded(info: ModuleInfo)

  /** One call of `output_object`: it wrote all its text, or it wrote a
      prefix of it and then threw. */
  datatype RenderOutcome = Rendered(text: string) | RenderThrew(partial: string, message: string)
}
