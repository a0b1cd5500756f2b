/** What the server admits as an operation message. */
module MessageSchema {
  import opened Uids
  import opened Rga

  predicate IsHexDigit(c: char) {
    '0' <= c <= '9' || 'a' <= c <= 'f' || 'A' <= c <= 'F'
  }

  /** Groups of 8, 4, 4, 4 and 12 hexadecimal digits, joined by dashes. */
  predicate IsUuid(s: string) {
    |s| == 36 && forall i :: 0 <= i < |s| ==> if i in {8, 13, 18, 23} then s[i] == '-' else IsHexDigit(s[i])
  }

  /** One code point, no control character other than newline and tab. */
  predicate IsTypeable(value: string) {
    |value| == 1 && (value[0] as int >= 32 || value[0] in {'\n', '\t'})
  }

  predicate Admitted(op: Op) {
    match op
    case Insert(uid, after, value) =>
      IsUuid(uid.siteId) && (after.Some? ==> IsUuid(after.value.siteId)) && IsTypeable(value)
    case Delete(uid) => IsUuid(uid.siteId)
    case Rollback(_) => false
  }

  const SAMPLE_UUID := "123e4567-e89b-12d3-a456-426614174000"

  lemma SampleIsUuid()
    ensures IsUuid(SAMPLE_UUID)
  {
  }

  /** What the schema lets through and what it does not, on one field each. */
  lemma SchemaExamples(clock: nat)
    ensures var u := UID(clock, SAMPLE_UUID);
      && Admitted(Insert(u, None, "x")) && Admitted(Insert(u, Some(u), "\n")) && Admitted(Insert(u, None, "\t"))
      && !Admitted(Insert(u, None, "")) && !Admitted(Insert(u, None, "xy")) && !Admitted(Insert(u, None, "\r"))
      && !Admitted(Insert(UID(clock, "a"), None, "x")) && !Admitted(Insert(u, Some(UID(clock, "a")), "x"))
      && Admitted(Delete(u)) && !Admitted(Delete(UID(clock, "a"))) && !Admitted(Rollback(u))
  {
    SampleIsUuid();
  }

  /** No admitted message names the root, neither as its target nor as its anchor. */
  lemma RootIsNotNamed(op: Op)
    requires Admitted(op)
    ensures op.uid != ROOT_UID && (op.Insert? ==> op.after != Some(ROOT_UID))
  {
    assert !IsUuid(ROOT_UID.siteId);
  }
}
