/**
 * `get_drive_info`: one read of the store's quota, with the `limit` and
 * `usage` fields shown through `convert_bytes`. A field the store omits
 * shows as "N/A"; an HTTP error gives an empty dictionary.
 */
module DriveInfo {
  import opened DriveStore
  import SizeFormat

  /**
   * The answer to `about().get(fields="storageQuota")`: the two quota
   * fields, each possibly absent (also when `storageQuota` itself is), or
   * an HTTP error.
   */
  datatype AboutResponse = About(limit: Option<string>, usage: Option<string>) | HttpError

  /** One quota field: a missing value defaults to "N/A", which is left as is */
  function ShowField(field: Option<string>): string {
    var raw := field.GetOr("N/A");
    if raw != "N/A" then SizeFormat.ConvertBytes(raw) else raw
  }

  /** `get_drive_info` */
  function GetDriveInfo(response: AboutResponse): (info: map<string, string>)
    ensures response.HttpError? <==> info == map[]
    ensures response.About? ==> info.Keys == {"total_space", "used_space"}
    ensures response.About? && response.limit.None? ==> info["total_space"] == "N/A"
    ensures response.About? && response.usage.None? ==> info["used_space"] == "N/A"
    ensures response.About? && response.limit.Some? ==>
              info["total_space"] == SizeFormat.ConvertBytes(response.limit.value)
    ensures response.About? && response.usage.Some? ==>
              info["used_space"] == SizeFormat.ConvertBytes(response.usage.value)
  {
    match response
    case HttpError => map[]
    case About(limit, usage) =>
      assert "total_space" in map["total_space" := ShowField(limit), "used_space" := ShowField(usage)];
      map["total_space" := ShowField(limit), "used_space" := ShowField(usage)]
  }

  /** A quota field shows as "N/A" exactly when it is missing or literally "N/A" */
  lemma ShownNotAvailable(field: Option<string>)
    ensures ShowField(field) == "N/A" <==> field.None? || field.value == "N/A"
  {
  }
}
