/**
 * The HTTP request that the client prepares and signs, and the parts of a
 * received response that it looks at. Sending a request is not modelled: a
 * response is an input.
 */
module Web {
  import opened Wrappers
  import opened Json

  datatype Method = GET | POST | PUT | DELETE | PATCH

  /** A prepared request. Only its headers change after preparation: signing
      writes the `Authorization` header into them. */
  class Request {
    const httpMethod: Method
    const url: string
    const queryParams: map<string, string>
    var headers: map<string, string>
    const data: Value
    const dataIsJson: bool

    constructor (httpMethod: Method, url: string, queryParams: map<string, string>,
                 headers: map<string, string>, data: Value, dataIsJson: bool)
      ensures this.httpMethod == httpMethod && this.url == url && this.queryParams == queryParams
      ensures this.headers == headers && this.data == data && this.dataIsJson == dataIsJson
    {
      this.httpMethod := httpMethod;
      this.url := url;
      this.queryParams := queryParams;
      this.headers := headers;
      this.data := data;
      this.dataIsJson := dataIsJson;
    }
  }

  /** A received response: its status, its text, and its body decoded as
      JSON, or `None` where `resp.json()` raises ContentTypeError. */
  datatype Response = Response(status: int, text: string, json: Option<Value>)
}
