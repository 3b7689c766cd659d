/** The query `fetch_events` builds for a date, a history id and no `since`. */
module QueryExample {
  import opened Wrappers
  import opened Text
  import opened Sync

  lemma DateExample(d: string)
    requires d == "2024-01-15"
    ensures IsDatePrefix(d)
    ensures ReplaceChar(d, '-', '/') == "2024/01/15"
  {
    assert d[0] == '2' && d[1] == '0' && d[2] == '2' && d[3] == '4' && d[4] == '-';
    assert d[5] == '0' && d[6] == '1' && d[7] == '-' && d[8] == '1' && d[9] == '5';
    var r := ReplaceChar(d, '-', '/');
    assert r[0] == '2' && r[1] == '0' && r[2] == '2' && r[3] == '4' && r[4] == '/';
    assert r[5] == '0' && r[6] == '1' && r[7] == '/' && r[8] == '1' && r[9] == '5';
  }

  /** A date becomes an `after:` query with `/` separators. */
  lemma DateQuery(d: string)
    requires d == "2024-01-15"
    ensures BuildQuery(Some(d)) == "after:2024/01/15"
  {
    DateExample(d);
    assert "after:" + "2024/01/15" == "after:2024/01/15";
  }

  /** A history id and an absent `since` give no query. */
  lemma NoQuery()
    ensures BuildQuery(Some("123456")) == ""
    ensures BuildQuery(None) == ""
  {
  }
}
