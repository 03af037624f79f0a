/**
 * SteamAppProcessor: a log-record processor that writes the app named in
 * the record's context into the message, in place of "%app%".
 */
module AppLog {
  import opened Results
  import opened Strings
  import opened PhpValues

  const Placeholder: string := "%app%"

  /** A log record: its message, its context array and all its other keys. */
  datatype LogRecord = LogRecord(message: string, context: Data, others: Data)

  /** `$record['context']['app'] ?? null`. */
  function ContextApp(record: LogRecord): Datum
  {
    Get(record.context, "app")
  }

  /** `"#$app[id] $app[name]"`; None when the app cannot be read or printed that way. */
  function AppLabel(app: Datum): (r: Option<string>)
    ensures app.Assoc? && Get(app.fields, "id").Int? && Get(app.fields, "name").Str? ==>
      r == Some("#" + IntToString(Get(app.fields, "id").i) + " " + Get(app.fields, "name").s)
  {
    var id, name := Offset(app, "id"), Offset(app, "name");
    if id.None? || name.None? then None
    else
      var idText, nameText := Interpolate(id.value), Interpolate(name.value);
      if idText.None? || nameText.None? then None
      else Some("#" + idText.value + " " + nameText.value)
  }

  /**
   * __invoke(): with a truthy app, every "%app%" in the message becomes
   * "#<id> <name>"; the rest of the record is returned as it came.
   */
  function Process(record: LogRecord): (r: Result<LogRecord>)
    ensures !IsTruthy(ContextApp(record)) ==> r == Ok(record)
    ensures r.Ok? ==> r.value.context == record.context && r.value.others == record.others
    ensures IsTruthy(ContextApp(record)) && AppLabel(ContextApp(record)).Some? ==>
      r == Ok(record.(message := Replace(record.message, Placeholder, AppLabel(ContextApp(record)).value)))
    ensures r.Err? <==> IsTruthy(ContextApp(record)) && AppLabel(ContextApp(record)).None?
  {
    var app := ContextApp(record);
    if !IsTruthy(app) then Ok(record)
    else
      match AppLabel(app)
      case None => Err(TypeError("app"))
      case Some(text) => Ok(record.(message := Replace(record.message, Placeholder, text)))
  }

  /** A message without the placeholder is unchanged even when an app is present. */
  lemma NoPlaceholderUnchanged(record: LogRecord)
    requires !Occurs(Placeholder, record.message)
    requires Process(record).Ok?
    ensures Process(record) == Ok(record)
  {
    if IsTruthy(ContextApp(record)) {
      ReplaceAbsent(record.message, Placeholder, AppLabel(ContextApp(record)).value);
    }
  }

  /**
   * With an app, the first placeholder is replaced by the app's label, the
   * text before it is kept, and the scan continues after it.
   */
  lemma FirstPlaceholderReplaced(record: LogRecord, before: string, after: string)
    requires IsTruthy(ContextApp(record)) && AppLabel(ContextApp(record)).Some?
    requires record.message == before + Placeholder + after
    requires forall i :: 0 <= i < |before| ==> !OccursAt(Placeholder, record.message, i)
    ensures var text := AppLabel(ContextApp(record)).value;
      Process(record).value.message == before + text + Replace(after, Placeholder, text)
  {
    ReplaceFirst(before, Placeholder, after, AppLabel(ContextApp(record)).value);
  }
}
