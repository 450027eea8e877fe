/**
 * Plain records of the integration: the device and sync-history rows, the
 * Pronet statistics envelope, the Nebim connect messages, and the shape of an
 * HTTP exchange as the clients observe it.
 */
module DataModels {
  import opened Wrappers
  import opened Calendar

  /** A `Guid` as its 128-bit value; `Guid.Empty` is zero. */
  type Guid = g: nat | g < 0x1_0000_0000_0000_0000_0000_0000_0000_0000
  const EmptyGuid: Guid := 0

  /** C#'s `int`. */
  type Int32 = x: int | -0x8000_0000 <= x < 0x8000_0000

  /** Data/Models/Device.cs. */
  datatype Device = Device(
    id: int,
    isActive: bool,
    nebimOfficeCode: string,
    nebimStoreCode: string,
    pronetStoreCode: Option<string>,
    macAddress: Option<string>,
    openingTime: TimeOnly,
    closingTime: TimeOnly,
    createdAt: DateTime,
    updatedAt: DateTime)

  /** Data/Models/Setting.cs: a key and a nullable value (the generated Id is not modelled). */
  datatype SettingRow = SettingRow(key: string, value: Option<string>)

  /** Data/Models/SyncHistory.cs (the database-generated Id is not modelled). */
  datatype SyncHistory = SyncHistory(
    runTime: DateTime,
    deviceStoreCode: string,
    status: string,
    message: string)

  /** Services/Pronet/PronetResponse.cs: every level of the envelope may be null. */
  datatype StoreStatistic = StoreStatistic(storeCode: Option<string>, totalEnterCount: Int32)
  datatype PronetData = PronetData(storeStatistics: Option<seq<StoreStatistic>>)
  datatype PronetResult = PronetResult(
    responseText: Option<string>,
    responseCode: Option<string>,
    data: Option<PronetData>)
  datatype PronetApiResponse = PronetApiResponse(result: Option<PronetResult>)

  /** `apiResponse?.Result?.ResponseText`. */
  function ResponseText(response: Option<PronetApiResponse>): Option<string> {
    if response.Some? && response.value.result.Some? then response.value.result.value.responseText
    else None
  }

  /** `pronetData?.Result?.Data?.StoreStatistics`. */
  function StoreStatistics(response: Option<PronetApiResponse>): Option<seq<StoreStatistic>> {
    if response.Some? && response.value.result.Some? && response.value.result.value.data.Some? then
      response.value.result.value.data.value.storeStatistics
    else None
  }

  /** The literal success marker of the Pronet API. */
  const PronetSuccessText: string := "Başarılı"

  /** Services/Nebim/NebimConnectResponse.cs. */
  datatype NebimConnectResponse = NebimConnectResponse(sessionId: Guid, isSucceeded: bool)

  /** Services/Nebim/NebimConnectRequest.cs: a body whose only member, ModelType, defaults to 0. */
  datatype NebimConnectRequest = NebimConnectRequest(modelType: int)

  function NewNebimConnectRequest(): (r: NebimConnectRequest)
    ensures r.modelType == 0
  {
    NebimConnectRequest(0)
  }

  /** How `ReadFromJsonAsync<T>` turns out: JSON `null`, malformed JSON (it throws), or a value. */
  datatype Body<T> = NullBody | MalformedBody | Parsed(value: T)

  /** One HTTP exchange: the call threw (with its message), or a status code and body came back. */
  datatype HttpReply<T> = Threw(message: string) | Replied(status: int, body: Body<T>)

  /** A POST whose reply body is not read on success: the call threw, or a status code came back. */
  datatype PostReply = PostThrew | PostStatus(status: int)

  /** `HttpResponseMessage.IsSuccessStatusCode`. */
  predicate IsSuccessStatusCode(status: int) {
    200 <= status <= 299
  }
}
