/** The fixed fourteen-column schema of the job table, the typed record that one
    row of it holds, and the header test an uploaded file has to pass. */
module Schema {
  import opened Sequences

  /** The column names every job table carries, in the order a fresh table lists them. */
  const RequiredHeaders: seq<string> := [
    "ID", "Job Title", "Company Name", "Application Status", "Date of Application",
    "Job Analysis", "Company Research", "Resume Update", "Cover Letter Update",
    "Update LinkedIn", "Application Submission", "Follow Up", "Interview Preparation",
    "Thank You"
  ]

  /** The four choices the "Application Status" field offers. */
  datatype AppStatus = Applied | Interviewed | OfferReceived | Rejected

  /** The date of application, kept as an uninterpreted calendar triple. */
  datatype Date = Date(year: int, month: int, day: int)

  /** The nine per-application checklist columns, one flag each. */
  datatype Checks = Checks(
    jobAnalysis: bool,
    companyResearch: bool,
    resumeUpdate: bool,
    coverLetterUpdate: bool,
    updateLinkedIn: bool,
    applicationSubmission: bool,
    followUp: bool,
    interviewPreparation: bool,
    thankYou: bool)

  /** The checklist of a freshly added application: nothing done yet. */
  const NoChecks: Checks := Checks(false, false, false, false, false, false, false, false, false)

  /** One row of the table: the five descriptive columns and the nine flags. */
  datatype Record = Record(
    id: string,
    title: string,
    company: string,
    status: AppStatus,
    date: Date,
    checks: Checks)

  /** Every name of `required` occurs among `columns`, in any position. */
  predicate HasHeaders(required: seq<string>, columns: seq<string>)
    ensures HasHeaders(required, columns) <==> (set h | h in required) <= (set c | c in columns)
  {
    var want, have := set h | h in required, set c | c in columns;
    assert forall h :: h in want <==> h in required;
    assert forall c :: c in have <==> c in columns;
    forall h :: h in required ==> h in columns
  }

  /** The names of `required` that `columns` lacks, listed in the order of `required`.
      The list is empty exactly when the header test passes. */
  function Missing(required: seq<string>, columns: seq<string>): (r: seq<string>)
    ensures forall h :: h in r <==> h in required && h !in columns
    ensures IsSubsequence(r, required)
    ensures r == [] <==> HasHeaders(required, columns)
  {
    if required == [] then []
    else
      var rest := Missing(required[1..], columns);
      if required[0] in columns then
        assert rest == [] || rest[0] != required[0] by {
          if rest != [] { assert rest[0] in rest; }
        }
        assert forall h :: h in required ==> h == required[0] || h in required[1..];
        rest
      else
        assert ([required[0]] + rest)[1..] == rest;
        [required[0]] + rest
  }

  /** Extra columns never make a passing file fail, and the order of the columns
      is irrelevant: a permutation of the columns passes exactly when the original does. */
  lemma HeaderTestIgnoresOrderAndExtras(required: seq<string>, columns: seq<string>, wider: seq<string>)
    requires forall c :: c in columns ==> c in wider
    ensures HasHeaders(required, columns) ==> HasHeaders(required, wider)
    ensures multiset(columns) == multiset(wider) ==>
              (HasHeaders(required, columns) <==> HasHeaders(required, wider))
  {
    if multiset(columns) == multiset(wider) {
      forall c | c in wider ensures c in columns {
        assert c in multiset(wider);
      }
    }
  }

  /** No required column name occurs twice, so the missing-header list for
      `RequiredHeaders` is the one `MissingIsUnique` pins down. */
  lemma RequiredHeadersDistinct()
    ensures forall i, j :: 0 <= i < j < |RequiredHeaders| ==> RequiredHeaders[i] != RequiredHeaders[j]
  {
  }

  /** A file whose header is exactly the schema passes, with nothing missing. */
  lemma SchemaHeaderPasses()
    ensures HasHeaders(RequiredHeaders, RequiredHeaders)
    ensures Missing(RequiredHeaders, RequiredHeaders) == []
  {
  }

  /** The missing-header list is the only list that keeps the order of a duplicate-free
      `required` and holds exactly the required names absent from `columns`. */
  lemma {:induction false} MissingIsUnique(required: seq<string>, columns: seq<string>, s: seq<string>)
    requires forall i, j :: 0 <= i < j < |required| ==> required[i] != required[j]
    requires IsSubsequence(s, required)
    requires forall h :: h in s <==> h in required && h !in columns
    ensures s == Missing(required, columns)
    decreases |required|
  {
    if required != [] {
      var rest := required[1..];
      assert forall i, j :: 0 <= i < j < |rest| ==> rest[i] != rest[j] by {
        forall i, j | 0 <= i < j < |rest| ensures rest[i] != rest[j] {
          assert rest[i] == required[i + 1] && rest[j] == required[j + 1];
        }
      }
      assert required[0] !in rest by {
        forall k | 0 <= k < |rest| ensures rest[k] != required[0] {
          assert rest[k] == required[k + 1];
        }
      }
      if s != [] && s[0] == required[0] {
        var t := s[1..];
        SubsequenceMembers(t, rest);
        assert s == [s[0]] + t;
        forall h ensures h in t <==> h in rest && h !in columns {
          if h in t {
            assert h in s;
            assert h != required[0];
          }
          if h in rest && h !in columns {
            assert h in required;
            assert h in s;
            assert h != s[0];
          }
        }
        MissingIsUnique(rest, columns, t);
      } else {
        if s != [] {
          assert s[0] in s;
          SubsequenceMembers(s, rest);
          assert required[0] !in s;
        }
        assert required[0] in required;
        assert required[0] in columns;
        forall h ensures h in s <==> h in rest && h !in columns {
          if h in s { assert h != required[0]; assert h in required; }
          if h in rest && h !in columns { assert h in required; }
        }
        MissingIsUnique(rest, columns, s);
      }
    }
  }
}
