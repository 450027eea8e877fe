/**
 * Services/Nebim/NebimPostRequest.cs: the in/out document posted to Nebim,
 * with the defaults its property initialisers supply.
 */
module NebimPostRequests {
  import opened DataModels

  datatype NebimHeader = NebimHeader(
    modelType: int,
    description: string,
    officeCode: string,
    storeCode: string,
    warehouseCode: string,
    docDate: string,
    docTime: string)

  datatype NebimLine = NebimLine(inComingQty: Int32, outGoingQty: Int32, lineDescription: string)

  datatype NebimPostRequest = NebimPostRequest(header: NebimHeader, lines: seq<NebimLine>)

  const DefaultModelType: int := 11
  const DefaultDescription: string := "INOUT"
  const DefaultLineDescription: string := "Giren-Çıkan Adet"

  /** `new NebimHeader { OfficeCode, StoreCode, WarehouseCode, DocDate, DocTime }`. */
  function NewHeader(officeCode: string, storeCode: string, warehouseCode: string,
                     docDate: string, docTime: string): (h: NebimHeader)
    ensures h.modelType == 11 && h.description == "INOUT"
    ensures h.officeCode == officeCode && h.storeCode == storeCode && h.warehouseCode == warehouseCode
    ensures h.docDate == docDate && h.docTime == docTime
  {
    NebimHeader(DefaultModelType, DefaultDescription, officeCode, storeCode, warehouseCode, docDate, docTime)
  }

  /** `new NebimLine { InComingQty }`. */
  function NewLine(inComingQty: Int32): (l: NebimLine)
    ensures l.inComingQty == inComingQty && l.outGoingQty == 0
    ensures l.lineDescription == "Giren-Çıkan Adet"
  {
    NebimLine(inComingQty, 0, DefaultLineDescription)
  }

  /** `new NebimPostRequest { Header }`: the line list starts empty. */
  function NewPostRequest(header: NebimHeader): (r: NebimPostRequest)
    ensures r.header == header && r.lines == []
  {
    NebimPostRequest(header, [])
  }
}
