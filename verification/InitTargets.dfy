/** The targets of the wrapped-module initialization calls. */
module InitTargets {

  /** An `init_*` call: of a wrapped module, or of the carrier of one CommonJS import record. */
  datatype Target = ModuleInit(module_: nat) | CjsCarrier(importer: nat, record: nat)
  {
    function Owner(): nat {
      match this
      case ModuleInit(m) => m
      case CjsCarrier(importer, _) => importer
    }
  }
}
