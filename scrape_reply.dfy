/** The `/scrape-url/` reply: the endpoint reads whatever `scrape_web`
    returned as a success exactly when it ends with ".csv". */
module ScrapeReply {
  import opened Common
  import opened Harvester

  /** Python's `s.endswith(suffix)`. */
  predicate EndsWith(s: string, suffix: string)
  {
    |suffix| <= |s| && s[|s| - |suffix|..] == suffix
  }

  const SavedMessage: string := "Scraping successful, CSV saved!"

  /** The JSON body of the reply. */
  datatype Reply = Saved(message: string, csvFile: string) | Failed(error: string)

  /** The classification of `scrape_web`'s return value. */
  function Classify(returned: string): (reply: Reply)
  {
    if EndsWith(returned, ".csv") then Saved(SavedMessage, returned) else Failed(returned)
  }

  /** `scrape_url`: run the scrape, then classify its return value. A page
      that was fetched is always reported saved under the table's name; a
      failure is reported as its message, unless that message itself ends
      with ".csv", in which case it is reported saved with the message as
      the file name. */
  method ScrapeUrl(page: Result<seq<Element>>) returns (reply: Reply, written: Option<seq<Record>>)
    ensures page.Ok? ==> reply == Saved(SavedMessage, CsvFileName) && written == Some(Harvest(page.value))
    ensures page.Err? ==> written == None
    ensures page.Err? && !EndsWith(page.message, ".csv") ==> reply == Failed(page.message)
    ensures page.Err? && EndsWith(page.message, ".csv") ==> reply == Saved(SavedMessage, page.message)
  {
    var csvFile;
    csvFile, written := ScrapeWeb(page);
    assert CsvFileName[|CsvFileName| - 4..] == ".csv";
    reply := Classify(csvFile);
  }

  /** The success test alone cannot tell a failure whose message ends with
      ".csv" from a saved table: such a message is reported saved, with the
      message as the file name, just as the table's own name is. */
  lemma FailureCanReadAsSaved(message: string)
    requires EndsWith(message, ".csv")
    ensures Classify(message) == Saved(SavedMessage, message)
    ensures Classify(message).Saved? == Classify(CsvFileName).Saved?
  {
    assert CsvFileName[|CsvFileName| - 4..] == ".csv";
  }
}
