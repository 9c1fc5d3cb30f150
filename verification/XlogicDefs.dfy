/** Definitions shared by the parts of the logic analyser. */
module XlogicDefs {
  datatype TriggerMode = NoTrigger | Level | Edge
}
