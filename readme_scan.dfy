/**
 * The internship half of `JobScraper` (`scrape_github_internships`): one
 * forward pass over the lines of the README's Markdown. A line of the form
 * `| **[Company](...)...` names the current company; a later pipe-table row
 * whose third cell is a role yields `{company, role, location}` for that
 * company.
 *
 * The download and base64 decoding are not modelled: the method receives the
 * decoded README text, or `None` when the request or the decoding failed.
 */
module ReadmeScan {
  import opened Wrappers
  import opened PyStr

  /** One internship record as the scraper returns it. */
  datatype Internship = Internship(company: string, role: string, location: string)

  /** What the scan carries from line to line: the current company (Python's
      `current_company`, initially `None`) and the records so far. */
  datatype ScanState = ScanState(company: Option<string>, jobs: seq<Internship>)

  const HeaderMarker: string := "| **["

  /** A company line: starts with `| **[` and holds `](` somewhere. */
  predicate IsHeaderLine(line: string) {
    StartsWith(line, HeaderMarker) && Contains(line, "](")
  }

  /** The text between the first `[` and the first `]`, when it is not empty. */
  function HeaderName(line: string): (name: Option<string>)
    ensures name.Some? ==> name.value != [] && ']' !in name.value
  {
    var start := Find(line, '[') + 1;
    var end := Find(line, ']');
    if start > 0 && end > start then Some(line[start..end]) else None
  }

  /** Python truthiness of `current_company`: present and not empty. */
  predicate IsActive(company: Option<string>) {
    company.Some? && company.value != ""
  }

  /** The role filter: not empty, not the table's own `Role` heading, not a
      `---` separator cell. */
  predicate IsRole(role: string) {
    role != "" && role != "Role" && !Contains(role, "---")
  }

  /** What a line is to the scan, whatever the current company: a company
      line (with its name, if not empty), a table row that passes the role
      filter (with its role and location), or anything else. */
  datatype LineKind = Header(name: Option<string>) | Row(role: string, location: string) | Skip

  /** Classify a line as it comes from `split('\n')`, after stripping it. */
  function Classify(raw: string): (kind: LineKind)
    ensures WellFormedKind(kind)
  {
    var line := Strip(raw);
    if IsHeaderLine(line) then Header(HeaderName(line))
    else if StartsWith(line, "|") && '|' in line then
      var parts := Split(line, '|');
      if |parts| >= 4 && IsRole(Strip(parts[2])) then Row(Strip(parts[2]), Strip(parts[3]))
      else Skip
    else Skip
  }

  /** One iteration of the loop, given the kind of the line. A row counts
      only while a company is current. */
  function Apply(st: ScanState, kind: LineKind): (st': ScanState)
    ensures st'.company == if NameOf(kind).Some? then NameOf(kind) else st.company
    ensures st.jobs <= st'.jobs && |st'.jobs| <= |st.jobs| + 1
    ensures |st'.jobs| == |st.jobs| + 1 <==> kind.Row? && IsActive(st.company)
    ensures |st'.jobs| == |st.jobs| + 1 ==>
      st'.jobs[|st.jobs|] == Internship(st.company.value, kind.role, kind.location)
  {
    match kind
    case Header(Some(name)) => st.(company := Some(name))
    case Header(None) => st
    case Row(role, location) =>
      if IsActive(st.company) then st.(jobs := st.jobs + [Internship(st.company.value, role, location)])
      else st
    case Skip => st
  }

  /** The state after applying `kinds` in order from a fresh start
      (`current_company = None`, no records). */
  function Run(kinds: seq<LineKind>): (st: ScanState)
    ensures |st.jobs| <= |kinds|
  {
    if kinds == [] then ScanState(None, [])
    else Apply(Run(kinds[..|kinds| - 1]), kinds[|kinds| - 1])
  }

  function Kinds(lines: seq<string>): (kinds: seq<LineKind>)
    ensures |kinds| == |lines|
  {
    seq(|lines|, i requires 0 <= i < |lines| => Classify(lines[i]))
  }

  /** The state after scanning `lines` from a fresh start. */
  function Scan(lines: seq<string>): (st: ScanState)
    ensures |st.jobs| <= |lines|
  {
    Run(Kinds(lines))
  }

  /** The company a line names: that of a company line with a non-empty name. */
  function NameOf(kind: LineKind): Option<string>
  {
    if kind.Header? then kind.name else None
  }

  function HeaderCompany(raw: string): Option<string>
  {
    NameOf(Classify(raw))
  }

  /** What `Classify` can produce: no empty company name, no filtered-out role. */
  predicate WellFormedKind(kind: LineKind)
  {
    (kind.Header? && kind.name.Some? ==> kind.name.value != "")
    && (kind.Row? ==> IsRole(kind.role))
  }

  // ---------------------------------------------------------------------------
  // Properties of one line

  /** On a company line the name sits right after `| **[` and is closed by the
      first `]`; the name is missing exactly when `]` follows `[` at once. */
  lemma HeaderNameSpec(line: string)
    requires IsHeaderLine(line)
    ensures 7 <= |line|
    ensures HeaderName(line).None? <==> line[5] == ']'
    ensures HeaderName(line).Some? ==>
      var name := HeaderName(line).value;
      name != [] && ']' !in name && 6 + |name| <= |line|
      && line[..6 + |name|] == HeaderMarker + name + "]"
  {
    assert line[..5] == HeaderMarker;
    var i :| OccursAt(line, "](", i);
    assert line[i] == ']';
    assert '[' !in line[..4];
    assert line[4] == '[';
    assert line[..4] + [line[4]] == line[..5];
    assert Find(line, '[') == 4;
    assert ']' !in line[..5];
    var end := Find(line, ']');
    assert end >= 5;
    if end > 5 {
      var name := line[5..end];
      assert line[..6 + |name|] == line[..5] + name + [line[end]];
    }
  }

  /** A line is a kept row exactly when, once stripped, it is not a company
      line, starts with `|`, splits on `|` into at least four cells, and its
      third cell, stripped, passes the role filter; the role and location are
      the third and fourth cells, stripped. */
  lemma ClassifyRow(raw: string)
    ensures var line := Strip(raw);
      Classify(raw).Row? <==>
        !IsHeaderLine(line) && line != [] && line[0] == '|'
        && |Split(line, '|')| >= 4 && IsRole(Strip(Split(line, '|')[2]))
    ensures var line := Strip(raw);
      Classify(raw).Row? ==>
        Classify(raw).role == Strip(Split(line, '|')[2])
        && Classify(raw).location == Strip(Split(line, '|')[3])
  {
    var line := Strip(raw);
    if StartsWith(line, "|") {
      assert line[0] == line[..1][0];
    }
    if line != [] && line[0] == '|' {
      assert line[..1] == "|";
    }
    if IsHeaderLine(line) {
      ClassifyHeaderLine(raw);
    } else if StartsWith(line, "|") && '|' in line {
      ClassifyPipeLine(raw);
    } else {
      ClassifyOtherLine(raw);
    }
  }

  // ---------------------------------------------------------------------------
  // Properties of the fold over line kinds

  lemma RunSnoc(kinds: seq<LineKind>, kind: LineKind)
    ensures Run(kinds + [kind]) == Apply(Run(kinds), kind)
  {
    assert (kinds + [kind])[..|kinds|] == kinds;
  }

  lemma {:induction false} RunWellFormed(kinds: seq<LineKind>)
    requires forall k | 0 <= k < |kinds| :: WellFormedKind(kinds[k])
    ensures Run(kinds).company.Some? ==> Run(kinds).company.value != ""
    ensures forall r | r in Run(kinds).jobs :: r.company != "" && IsRole(r.role)
  {
    if kinds != [] {
      RunWellFormed(kinds[..|kinds| - 1]);
      assert WellFormedKind(kinds[|kinds| - 1]);
    }
  }

  lemma {:induction false} RunNoCompany(kinds: seq<LineKind>)
    ensures Run(kinds).company.None? <==> forall k | 0 <= k < |kinds| :: NameOf(kinds[k]).None?
  {
    if kinds != [] {
      var prefix := kinds[..|kinds| - 1];
      RunNoCompany(prefix);
      assert forall k | 0 <= k < |prefix| :: prefix[k] == kinds[k];
    }
  }

  lemma {:induction false} RunCompanyLatest(kinds: seq<LineKind>)
    ensures Run(kinds).company.Some? ==>
      exists k | 0 <= k < |kinds| :: NameOf(kinds[k]) == Run(kinds).company
        && forall j | k < j < |kinds| :: NameOf(kinds[j]).None?
  {
    if kinds != [] {
      var prefix := kinds[..|kinds| - 1];
      var last := kinds[|kinds| - 1];
      if NameOf(last).Some? {
        assert NameOf(kinds[|kinds| - 1]) == Run(kinds).company;
      } else {
        RunCompanyLatest(prefix);
        assert Run(kinds).company == Run(prefix).company;
        if Run(prefix).company.Some? {
          var k :| 0 <= k < |prefix| && NameOf(prefix[k]) == Run(prefix).company
            && forall j | k < j < |prefix| :: NameOf(prefix[j]).None?;
          assert forall j | k < j < |prefix| :: prefix[j] == kinds[j];
          assert NameOf(kinds[k]) == Run(kinds).company;
        }
      }
    }
  }


  lemma {:induction false} RunNoHeader(kinds: seq<LineKind>)
    requires forall k | 0 <= k < |kinds| :: NameOf(kinds[k]).None?
    ensures Run(kinds).jobs == [] && Run(kinds).company.None?
  {
    if kinds != [] {
      var prefix := kinds[..|kinds| - 1];
      assert forall k | 0 <= k < |prefix| :: prefix[k] == kinds[k];
      RunNoHeader(prefix);
      assert NameOf(kinds[|kinds| - 1]).None?;
    }
  }

  lemma {:induction false} RunPrefix(a: seq<LineKind>, b: seq<LineKind>)
    ensures Run(a).jobs <= Run(a + b).jobs
  {
    if b == [] {
      assert a + b == a;
    } else {
      var b' := b[..|b| - 1];
      assert (a + b)[..|a + b| - 1] == a + b';
      RunPrefix(a, b');
    }
  }

  // ---------------------------------------------------------------------------
  // Properties of the scan

  lemma KindsAt(lines: seq<string>)
    ensures forall k | 0 <= k < |lines| :: Kinds(lines)[k] == Classify(lines[k])
  {
  }

  lemma KindsSnoc(lines: seq<string>, raw: string)
    ensures Kinds(lines + [raw]) == Kinds(lines) + [Classify(raw)]
  {
    assert forall k | 0 <= k < |lines| :: (lines + [raw])[k] == lines[k];
  }

  lemma ScanSnoc(lines: seq<string>, raw: string)
    ensures Scan(lines + [raw]) == Apply(Scan(lines), Classify(raw))
  {
    KindsSnoc(lines, raw);
    RunSnoc(Kinds(lines), Classify(raw));
  }

  /** The scan of one more line of the same text, as the loop reads it. */
  lemma ScanNext(lines: seq<string>, i: nat)
    requires i < |lines|
    ensures Scan(lines[..i + 1]) == Apply(Scan(lines[..i]), Classify(lines[i]))
  {
    assert lines[..i + 1] == lines[..i] + [lines[i]];
    ScanSnoc(lines[..i], lines[i]);
  }

  lemma KindsAppend(a: seq<string>, b: seq<string>)
    ensures Kinds(a + b) == Kinds(a) + Kinds(b)
  {
    forall k | 0 <= k < |a + b| ensures Kinds(a + b)[k] == (Kinds(a) + Kinds(b))[k] {
      if k < |a| {
        assert (a + b)[k] == a[k];
      } else {
        assert (a + b)[k] == b[k - |a|];
      }
    }
  }

  lemma KindsWellFormed(lines: seq<string>)
    ensures forall k | 0 <= k < |lines| :: WellFormedKind(Kinds(lines)[k])
  {
  }

  /** One more line adds the record of an accepted row, for the current
      company, and nothing otherwise; a company line never adds a record. */
  lemma ScanStep(lines: seq<string>, raw: string)
    ensures var st := Scan(lines);
      Scan(lines + [raw]).jobs ==
        if IsActive(st.company) && Classify(raw).Row? then
          st.jobs + [Internship(st.company.value, Classify(raw).role, Classify(raw).location)]
        else st.jobs
    ensures IsHeaderLine(Strip(raw)) ==> Scan(lines + [raw]).jobs == Scan(lines).jobs
  {
    KindsSnoc(lines, raw);
    RunSnoc(Kinds(lines), Classify(raw));
    KindsWellFormed(lines);
    RunWellFormed(Kinds(lines));
    if IsHeaderLine(Strip(raw)) {
      assert Classify(raw).Header?;
    }
  }

  /** The current company is the name of the LAST company line with a
      non-empty name, and there is none exactly when no such line exists. */
  lemma CompanyIsLatestHeader(lines: seq<string>)
    ensures Scan(lines).company.None? <==>
      forall k | 0 <= k < |lines| :: HeaderCompany(lines[k]).None?
    ensures Scan(lines).company.Some? ==>
      exists k | 0 <= k < |lines| :: HeaderCompany(lines[k]) == Scan(lines).company
        && forall j | k < j < |lines| :: HeaderCompany(lines[j]).None?
  {
    KindsAt(lines);
    RunNoCompany(Kinds(lines));
    RunCompanyLatest(Kinds(lines));
  }

  /** Every record has a non-empty company and a role that passes the filter. */
  lemma RecordsWellFormed(lines: seq<string>)
    ensures forall r | r in Scan(lines).jobs :: r.company != "" && IsRole(r.role)
  {
    KindsWellFormed(lines);
    RunWellFormed(Kinds(lines));
  }

  /** Rows before the first company line yield nothing: with no company line
      at all, there is no current company and there are no records. */
  lemma NoHeaderNoRecords(lines: seq<string>)
    requires forall k | 0 <= k < |lines| :: HeaderCompany(lines[k]).None?
    ensures Scan(lines).jobs == [] && Scan(lines).company.None?
  {
    KindsAt(lines);
    RunNoHeader(Kinds(lines));
  }

  /** Records keep the order of the lines: scanning `a + b` yields the records
      of `a` followed by further records. */
  lemma ScanPrefix(a: seq<string>, b: seq<string>)
    ensures Scan(a).jobs <= Scan(a + b).jobs
  {
    KindsAppend(a, b);
    RunPrefix(Kinds(a), Kinds(b));
  }

  // ---------------------------------------------------------------------------
  // The scraper

  /** The body of the loop: one stripped line against the current company
      and the records so far. */
  method ScanLine(company: Option<string>, jobs: seq<Internship>, raw: string)
    returns (company': Option<string>, jobs': seq<Internship>)
    ensures ScanState(company', jobs') == Apply(ScanState(company, jobs), Classify(raw))
  {
    company', jobs' := company, jobs;
    var line := Strip(raw);
    if StartsWith(line, HeaderMarker) && Contains(line, "](") {
      ClassifyHeaderLine(raw);
      var companyStart := Find(line, '[') + 1;
      var companyEnd := Find(line, ']');
      if companyStart > 0 && companyEnd > companyStart {
        company' := Some(line[companyStart..companyEnd]);
      }
    } else if StartsWith(line, "|") && '|' in line && company.Some? && company.value != "" {
      ClassifyPipeLine(raw);
      var parts := Split(line, '|');
      if |parts| >= 4 {
        var role := Strip(parts[2]);
        var location := Strip(parts[3]);
        if role != "" && role != "Role" && !Contains(role, "---") {
          jobs' := jobs + [Internship(company.value, role, location)];
        }
      }
    } else if StartsWith(line, "|") && '|' in line {
      ClassifyPipeLine(raw);
    } else {
      ClassifyOtherLine(raw);
    }
  }

  lemma ClassifyHeaderLine(raw: string)
    requires IsHeaderLine(Strip(raw))
    ensures Classify(raw) == Header(HeaderName(Strip(raw)))
  {
  }

  lemma ClassifyPipeLine(raw: string)
    requires var line := Strip(raw);
      !IsHeaderLine(line) && StartsWith(line, "|") && '|' in line
    ensures var parts := Split(Strip(raw), '|');
      Classify(raw) ==
        if |parts| >= 4 && IsRole(Strip(parts[2])) then Row(Strip(parts[2]), Strip(parts[3])) else Skip
  {
  }

  lemma ClassifyOtherLine(raw: string)
    requires var line := Strip(raw);
      !IsHeaderLine(line) && !(StartsWith(line, "|") && '|' in line)
    ensures Classify(raw) == Skip
  {
  }

  /** `JobScraper.scrape_github_internships` from the decoded README text on:
      split into lines, scan each stripped line, collect the records. A failed
      download (any exception) gives `[]`. */
  method ScrapeGithubInternships(readme: Option<string>) returns (jobs: seq<Internship>)
    ensures readme.None? ==> jobs == []
    ensures readme.Some? ==> jobs == Scan(Split(readme.value, '\n')).jobs
  {
    if readme.None? {
      return [];
    }
    var lines := Split(readme.value, '\n');
    jobs := [];
    var currentCompany: Option<string> := None;
    for i := 0 to |lines|
      invariant Scan(lines[..i]) == ScanState(currentCompany, jobs)
    {
      ScanNext(lines, i);
      currentCompany, jobs := ScanLine(currentCompany, jobs, lines[i]);
    }
    assert lines[..|lines|] == lines;
  }
}
