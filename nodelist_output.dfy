/** The `nodelist` output adapter's configuration (output/nodelist/output.go). */
module NodelistOutput {
  import opened Wrappers
  import opened Values

  /** A registered `nodelist` output and the file it writes. */
  datatype Output = Output(path: string)

  /** The source asserts a present path to be a string. */
  predicate PathIsString(c: map<string, Value>)
  {
    "path" in c ==> c["path"].Str?
  }

  /** The configured path, "" when none is configured. */
  function Path(c: map<string, Value>): (p: string)
    requires PathIsString(c)
    ensures "path" in c ==> p == c["path"].s
    ensures "path" !in c ==> p == ""
  {
    if "path" in c then c["path"].s else ""
  }

  /** An output writing to the configured path; an error and no output when
      the path is empty or absent. */
  function Register(c: map<string, Value>): (r: Result<Output, string>)
    requires PathIsString(c)
    ensures r.Ok? <==> "path" in c && c["path"].s != ""
    ensures r.Ok? ==> r.value.path == c["path"].s
    ensures r.Err? ==> r.error == "no path given"
  {
    var path := Path(c);
    if path != "" then Ok(Output(path)) else Err("no path given")
  }
}
