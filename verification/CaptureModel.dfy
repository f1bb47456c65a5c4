/** The objects the collector writes, as the capture side holds them. */
module CaptureModel {
  import opened GraphTheory
  import opened HeapModel

  datatype ContentKind = NONE | DICT | LIST | SET | TUPLE

  datatype CapturedObject = CapturedObject(
    address: Address, typeAddress: Address, typeName: Text, shallowSize: int, contentKind: ContentKind,
    sequenceContent: seq<Address>, dictContent: seq<(Address, Address)>, referents: set<Address>,
    attributes: seq<(Text, Address)>, strRepr: Text)

  datatype CapturedFrame = CapturedFrame(fileName: Text, lineNumber: int, function_: Text, locals: seq<(Text, Address)>)

  datatype CapturedThread = CapturedThread(name: Text, isAlive: bool, isDaemon: bool, frames: seq<CapturedFrame>)
}
