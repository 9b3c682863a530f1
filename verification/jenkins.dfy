/**
  The Jenkins build-status example: the client record that builds the
  last-build URL, the status-to-colour table, and one step of the polling
  loop that shows two jobs' statuses on pixels 0 and 1.
*/
module Jenkins {
  import opened Results
  import opened Text
  import opened StatusBoard

  /** The client's attributes: the credentials as given, the derived `auth` prefix, host, job and URL. */
  datatype Client = Client(
    user: Option<string>,
    password: Option<string>,
    auth: string,
    host: string,
    project: string,
    url: string)

  const ApiSuffix := "/lastBuild/api/json"

  /** The `auth` prefix: `user:password@` when both are given, otherwise empty. */
  function Authorization(user: Option<string>, password: Option<string>): (auth: string)
    ensures auth == [] <==> user.None? || password.None?
    ensures user.Some? && password.Some? ==>
      && |auth| == |user.value| + |password.value| + 2
      && auth[..|user.value|] == user.value
      && auth[|user.value|] == ':'
      && auth[|user.value| + 1..|auth| - 1] == password.value
      && auth[|auth| - 1] == '@'
  {
    if user.Some? && password.Some? then user.value + ":" + password.value + "@" else ""
  }

  /** `set_authorization`: replaces `auth` only; the URL is not rebuilt. */
  function SetAuthorization(client: Client, user: Option<string>, password: Option<string>): (r: Client)
    ensures r.auth == Authorization(user, password)
    ensures r.(auth := client.auth) == client
  {
    client.(auth := Authorization(user, password))
  }

  /** `last_build.format(auth=..., host=..., job=...)`. */
  function LastBuildUrl(auth: string, host: string, job: string): (url: string)
    ensures |url| == 7 + |auth| + |host| + |job| + |ApiSuffix|
    ensures url[..7] == "http://"
    ensures url[7..7 + |auth|] == auth
    ensures url[7 + |auth|..7 + |auth| + |host|] == host
    ensures url[7 + |auth| + |host|..|url| - |ApiSuffix|] == job
    ensures url[|url| - |ApiSuffix|..] == ApiSuffix
  {
    "http://" + auth + host + job + ApiSuffix
  }

  /** `_set_url`: the URL from the current `auth`, host and job. */
  function SetUrl(client: Client): (r: Client)
    ensures r.url == LastBuildUrl(client.auth, client.host, client.project)
    ensures r.(url := client.url) == client
  {
    client.(url := LastBuildUrl(client.auth, client.host, client.project))
  }

  /** `Jenkins(host, user, password, job)`: attributes, then `set_authorization`, then `_set_url`. */
  function NewClient(host: string, user: Option<string>, password: Option<string>, job: string): (r: Client)
    ensures r.user == user && r.password == password && r.host == host && r.project == job
    ensures r.auth == Authorization(user, password)
    ensures r.url == LastBuildUrl(Authorization(user, password), host, job)
  {
    var bare := Client(user, password, "", host, job, "");
    SetUrl(SetAuthorization(bare, user, password))
  }

  /** The URL of a new client is the credentials, host and job in order, with or without the `user:password@` part. */
  lemma NewClientUrl(host: string, user: Option<string>, password: Option<string>, job: string)
    ensures user.Some? && password.Some? ==>
      NewClient(host, user, password, job).url
        == "http://" + user.value + ":" + password.value + "@" + host + job + "/lastBuild/api/json"
    ensures user.None? || password.None? ==>
      NewClient(host, user, password, job).url == "http://" + host + job + "/lastBuild/api/json"
  {
    if user.None? || password.None? {
      assert "http://" + [] + host == "http://" + host;
    } else {
      var u, p := user.value, password.value;
      assert "http://" + (u + ":" + p + "@") + host + job == "http://" + u + ":" + p + "@" + host + job;
    }
  }

  /** Changing the credentials after construction leaves the URL stale until `_set_url` runs again. */
  lemma UrlIsStaleUntilRebuilt(client: Client, user: Option<string>, password: Option<string>)
    ensures SetAuthorization(client, user, password).url == client.url
    ensures SetUrl(SetAuthorization(client, user, password)).url
         == LastBuildUrl(Authorization(user, password), client.host, client.project)
  {
  }

  /** The status table, in declaration order. */
  const StatusColors: seq<(string, string)> := [
    ("FAILURE", "red"),
    ("SUCCESS", "yellow"),
    ("UNSTABLE", "green")
  ]

  /** Search of the status table from entry `from` onwards. */
  function FindStatus(status: string, from: nat): (r: Result<string>)
    requires from <= |StatusColors|
    ensures r.Err? <==> forall k :: from <= k < |StatusColors| ==> StatusColors[k].0 != status
    ensures r.Err? ==> r.error == KeyError
    ensures r.Ok? ==> exists k :: from <= k < |StatusColors| && StatusColors[k] == (status, r.value)
    decreases |StatusColors| - from
  {
    if from == |StatusColors| then Err(KeyError)
    else if StatusColors[from].0 == status then Ok(StatusColors[from].1)
    else FindStatus(status, from + 1)
  }

  /** `status_color[status]`: exact, case-sensitive match; any other status raises `KeyError`. */
  function GetStatusColor(status: string): (r: Result<string>)
    ensures r.Err? <==> forall k :: 0 <= k < |StatusColors| ==> StatusColors[k].0 != status
    ensures r.Err? ==> r.error == KeyError
    ensures r.Ok? ==> exists k :: 0 <= k < |StatusColors| && StatusColors[k] == (status, r.value)
  {
    FindStatus(status, 0)
  }

  lemma StatusTable()
    ensures GetStatusColor("FAILURE") == Ok("red")
    ensures GetStatusColor("SUCCESS") == Ok("yellow")
    ensures GetStatusColor("UNSTABLE") == Ok("green")
    ensures GetStatusColor("success") == Err(KeyError)
  {
  }

  /** Every colour a status maps to is a key of the board's table. */
  lemma StatusColorsAreBoardColors(status: string)
    requires GetStatusColor(status).Ok?
    ensures IsColorName(ToLower(GetStatusColor(status).value))
    ensures Lookup(GetStatusColor(status).value).Some?
  {
    var c := GetStatusColor(status).value;
    if c == "red" {
      assert ToLower(c) == c && ColorTable[4].0 == c;
    } else if c == "yellow" {
      assert ToLower(c) == c && ColorTable[6].0 == c;
    } else {
      assert ToLower(c) == c && ColorTable[2].0 == c;
    }
  }

  /** So showing a known status on a pixel of the strip cannot fail. */
  lemma ShowingAStatusSucceeds(board: Board, pixel: int, status: string)
    requires GetStatusColor(status).Ok? && ValidPixel(board, pixel)
    ensures SetPixelColor(board, pixel, GetStatusColor(status).value).Ok?
  {
    StatusColorsAreBoardColors(status);
  }

  /**
    One pass of the polling loop once both statuses are fetched: both colours
    are looked up first, then pixel 0 and pixel 1 are set.
  */
  function ShowStatuses(board: Board, status1: string, status2: string): (r: Outcome)
    ensures r.raised.None? <==> GetStatusColor(status1).Ok? && GetStatusColor(status2).Ok? && |board.pixels| >= 2
    ensures GetStatusColor(status1).Err? || GetStatusColor(status2).Err? ==> r == Outcome(board, Some(KeyError))
  {
    var color1 := GetStatusColor(status1);
    var color2 := GetStatusColor(status2);
    if color1.Err? then Outcome(board, Some(color1.error))
    else if color2.Err? then Outcome(board, Some(color2.error))
    else
      StatusColorsAreBoardColors(status1);
      StatusColorsAreBoardColors(status2);
      var shown1 := SetPixelColor(board, 0, color1.value);
      if shown1.Err? then Outcome(board, Some(shown1.error))
      else
        var shown2 := SetPixelColor(shown1.value, 1, color2.value);
        if shown2.Err? then Outcome(shown1.value, Some(shown2.error))
        else Outcome(shown2.value, None)
  }

  /** With both statuses known and two pixels, pixel 0 shows the first job and pixel 1 the second. */
  lemma ShowStatusesShowsBoth(board: Board, status1: string, status2: string)
    requires GetStatusColor(status1).Ok? && GetStatusColor(status2).Ok? && |board.pixels| >= 2
    ensures var r := ShowStatuses(board, status1, status2);
      && r.raised.None?
      && |r.board.pixels| == |board.pixels|
      && ColorBrightness(board, GetStatusColor(status1).value) == Ok(r.board.pixels[0])
      && ColorBrightness(board, GetStatusColor(status2).value) == Ok(r.board.pixels[1])
      && (forall j :: 2 <= j < |board.pixels| ==> r.board.pixels[j] == board.pixels[j])
      && r.board.brightness == board.brightness
      && r.board.flushes == board.flushes + 2
  {
    StatusColorsAreBoardColors(status1);
    StatusColorsAreBoardColors(status2);
    SetTwoPixels(board, 0, GetStatusColor(status1).value, 1, GetStatusColor(status2).value);
  }

  /** On a one-pixel strip the first job is shown and flushed before `IndexError` is raised for the second. */
  lemma OnePixelStripShowsFirstJob(board: Board, status1: string, status2: string)
    requires |board.pixels| == 1
    requires GetStatusColor(status1).Ok? && GetStatusColor(status2).Ok?
    ensures ShowStatuses(board, status1, status2).raised == Some(IndexError)
    ensures ShowStatuses(board, status1, status2).board == SetPixelColor(board, 0, GetStatusColor(status1).value).value
  {
    StatusColorsAreBoardColors(status1);
    StatusColorsAreBoardColors(status2);
  }
}
