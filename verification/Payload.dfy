/** What the stream protocols read out of a decoded JSON response: only the fields they look at. */
module Payload {
  import opened Prelude

  type TokenIds = seq<nat>

  const PROMPT_TOKEN_COUNT := 64
  const OUTPUT_TOKEN_COUNT := 32

  /** A token-id list field: missing, null, not a list of nonnegative integers, or good. */
  datatype IdsField = Missing | Null | BadIds | Ids(ids: TokenIds)

  datatype FinishReason = NotFinished | Length | OtherReason

  datatype Choice = NotAnObject
    | Choice(indexIsZero: bool, text: Option<string>, tokenIds: IdsField, finish: FinishReason, prompt: IdsField)

  datatype Choices = NotAList | Items(items: seq<Choice>)

  /** A field that is missing, present but refused by its contract, or present and good. */
  datatype Checked<+T> = Absent | Refused | Good(value: T)

  /** The five optional server-side metrics; their values are carried along, never computed with. */
  datatype ServerMetrics = ServerMetrics(values: seq<Option<real>>)

  /** `Malformed` covers bad JSON, duplicate keys and values that are no object. `usage` is good when
      it is exactly 64 prompt, 32 completion and 96 total tokens. */
  datatype Response = Malformed
    | Response(id: string, choices: Choices, usage: Checked<()>, metrics: Checked<ServerMetrics>)

  type JsonDecoder = string -> Response

  function ResponseId(externalId: string): string {
    "cmpl-" + externalId
  }

  function ServingItemId(externalId: string): string {
    "cmpl-" + externalId + "-0"
  }
}
