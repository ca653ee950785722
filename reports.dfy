/** Report items as the facade produces them: their kind, the option they
    are about, their severity and the force code that would let a user
    override them. Messages and lists of allowed values are not modelled. */
module Reports {
  import opened Util

  datatype Severity = Error | Warning

  /** `report_codes.FORCE_QDEVICE_MODEL`, `report_codes.FORCE_OPTIONS` */
  datatype ForceCode = ForceQdeviceModel | ForceOptions

  datatype ReportKind =
    | InvalidOption
    | InvalidOptionValue
    | RequiredOptionIsMissing
    | QdeviceAlreadyDefined
    | QdeviceNotDefined
    | CorosyncConfigParserMissingClosingBrace
    | CorosyncConfigParserUnexpectedClosingBrace
    | CorosyncConfigParserOtherError

  datatype Report = Report(kind: ReportKind, option: string, severity: Severity, forceCode: Option<ForceCode>)

  /** A report built without a severity: ERROR that cannot be forced. */
  function Blocking(kind: ReportKind, option: string): Report {
    Report(kind, option, Error, None)
  }

  /** A report of a check that the user can override: ERROR carrying the
      force code normally, WARNING without a code when forced. */
  function Forceable(kind: ReportKind, option: string, force: bool, code: ForceCode): Report {
    if force then Report(kind, option, Warning, None) else Report(kind, option, Error, Some(code))
  }

  /** What forcing does to one report: a report that carries a force code
      becomes a WARNING without one; every other report stays as it is. */
  function Downgrade(r: Report): Report {
    if r.forceCode.Some? then r.(severity := Warning, forceCode := None) else r
  }

  function DowngradeAll(rs: seq<Report>): (r: seq<Report>)
    ensures |r| == |rs| && forall i :: 0 <= i < |rs| ==> r[i] == Downgrade(rs[i])
  {
    seq(|rs|, i requires 0 <= i < |rs| => Downgrade(rs[i]))
  }

  /** `report_processor.process_list` stops the command (raises) exactly
      when some report is an ERROR. */
  predicate HasErrors(rs: seq<Report>) {
    exists i :: 0 <= i < |rs| && rs[i].severity == Error
  }

  /** The reports about one option, in order. */
  function ReportsAbout(rs: seq<Report>, option: string): (r: seq<Report>)
    ensures forall x :: x in r ==> x in rs && x.option == option
  {
    if rs == [] then []
    else (if rs[0].option == option then [rs[0]] else []) + ReportsAbout(rs[1..], option)
  }

  lemma {:induction false} ReportsAboutAppend(a: seq<Report>, b: seq<Report>, option: string)
    ensures ReportsAbout(a + b, option) == ReportsAbout(a, option) + ReportsAbout(b, option)
  {
    if a == [] {
      assert a + b == b;
    } else {
      assert (a + b)[0] == a[0] && (a + b)[1..] == a[1..] + b;
      ReportsAboutAppend(a[1..], b, option);
    }
  }

  lemma HasErrorsAppend(a: seq<Report>, b: seq<Report>)
    ensures HasErrors(a + b) <==> HasErrors(a) || HasErrors(b)
  {
    if HasErrors(a + b) {
      var i :| 0 <= i < |a + b| && (a + b)[i].severity == Error;
      if i >= |a| {
        assert b[i - |a|].severity == Error;
      }
    }
    if HasErrors(b) {
      var i :| 0 <= i < |b| && b[i].severity == Error;
      assert (a + b)[|a| + i] == b[i];
    }
    if HasErrors(a) {
      var i :| 0 <= i < |a| && a[i].severity == Error;
      assert (a + b)[i] == a[i];
    }
  }

  lemma DowngradeAllAppend(a: seq<Report>, b: seq<Report>)
    ensures DowngradeAll(a + b) == DowngradeAll(a) + DowngradeAll(b)
  {
  }

  /** The reports of a list of option names, option by option:
      `for name in names: report_items.extend(check(name))`. */
  function ConcatMap(names: seq<string>, check: string -> seq<Report>): (r: seq<Report>)
  {
    if names == [] then [] else check(names[0]) + ConcatMap(names[1..], check)
  }

  /** Every report that `check` gives for a name is about that name. */
  ghost predicate AboutItsName(check: string -> seq<Report>) {
    forall name, i :: 0 <= i < |check(name)| ==> check(name)[i].option == name
  }

  lemma {:induction false} ReportsAboutOwn(check: string -> seq<Report>, name: string, other: string)
    requires AboutItsName(check)
    ensures ReportsAbout(check(name), other) == if name == other then check(name) else []
  {
    ReportsAboutOwnList(check(name), name, other);
  }

  lemma {:induction false} ReportsAboutOwnList(rs: seq<Report>, name: string, other: string)
    requires forall i :: 0 <= i < |rs| ==> rs[i].option == name
    ensures ReportsAbout(rs, other) == if name == other then rs else []
  {
    if rs != [] {
      ReportsAboutOwnList(rs[1..], name, other);
      assert rs == [rs[0]] + rs[1..];
    }
  }

  /** With distinct names, the reports about one name are exactly what its
      own check gave, and nothing for a name that was not checked. */
  lemma {:induction false} ConcatMapAbout(names: seq<string>, check: string -> seq<Report>, name: string)
    requires AboutItsName(check)
    requires forall i, j :: 0 <= i < j < |names| ==> names[i] != names[j]
    ensures ReportsAbout(ConcatMap(names, check), name) == if name in names then check(name) else []
  {
    if names != [] {
      ConcatMapAbout(names[1..], check, name);
      ReportsAboutAppend(check(names[0]), ConcatMap(names[1..], check), name);
      ReportsAboutOwn(check, names[0], name);
      assert forall j :: 0 <= j < |names[1..]| ==> names[1..][j] == names[j + 1];
    }
  }

  lemma {:induction false} ConcatMapHasErrors(names: seq<string>, check: string -> seq<Report>)
    ensures HasErrors(ConcatMap(names, check)) <==> exists i :: 0 <= i < |names| && HasErrors(check(names[i]))
  {
    if names != [] {
      ConcatMapHasErrors(names[1..], check);
      HasErrorsAppend(check(names[0]), ConcatMap(names[1..], check));
      if exists i :: 0 <= i < |names| && HasErrors(check(names[i])) {
        var i :| 0 <= i < |names| && HasErrors(check(names[i]));
        if i > 0 {
          assert names[1..][i - 1] == names[i];
        }
      }
      if exists i :: 0 <= i < |names[1..]| && HasErrors(check(names[1..][i])) {
        var i :| 0 <= i < |names[1..]| && HasErrors(check(names[1..][i]));
        assert names[i + 1] == names[1..][i];
      }
    }
  }

  /** A name whose own reports hold an ERROR puts one in the whole list. */
  lemma {:induction false} ConcatMapHasErrorsOf(names: seq<string>, check: string -> seq<Report>, name: string)
    requires name in names && HasErrors(check(name))
    ensures HasErrors(ConcatMap(names, check))
  {
    HasErrorsAppend(check(names[0]), ConcatMap(names[1..], check));
    if names[0] != name {
      ConcatMapHasErrorsOf(names[1..], check, name);
    }
  }

  /** If forcing downgrades each name's reports, it downgrades them all. */
  lemma {:induction false} ConcatMapDowngrade(names: seq<string>, forced: string -> seq<Report>, plain: string -> seq<Report>)
    requires forall name :: forced(name) == DowngradeAll(plain(name))
    ensures ConcatMap(names, forced) == DowngradeAll(ConcatMap(names, plain))
  {
    if names != [] {
      ConcatMapDowngrade(names[1..], forced, plain);
      DowngradeAllAppend(plain(names[0]), ConcatMap(names[1..], plain));
    }
  }

  /** A property of every report of two lists holds of every report of
      their concatenation. */
  lemma AllAppend(a: seq<Report>, b: seq<Report>, ok: Report -> bool)
    requires forall i :: 0 <= i < |a| ==> ok(a[i])
    requires forall i :: 0 <= i < |b| ==> ok(b[i])
    ensures forall i :: 0 <= i < |a + b| ==> ok((a + b)[i])
  {
    forall i | 0 <= i < |a + b|
      ensures ok((a + b)[i])
    {
      if i < |a| {
        assert (a + b)[i] == a[i];
      } else {
        assert (a + b)[i] == b[i - |a|];
      }
    }
  }

  /** The reports about one name from a fixed head followed by one check per
      distinct name. */
  lemma HeadThenChecksAbout(head: seq<Report>, names: seq<string>, check: string -> seq<Report>, name: string)
    requires AboutItsName(check)
    requires forall i, j :: 0 <= i < j < |names| ==> names[i] != names[j]
    ensures ReportsAbout(head + ConcatMap(names, check), name) ==
      ReportsAbout(head, name) + if name in names then check(name) else []
  {
    ConcatMapAbout(names, check, name);
    ReportsAboutAppend(head, ConcatMap(names, check), name);
  }

  lemma {:induction false} ConcatMapAll(names: seq<string>, check: string -> seq<Report>, ok: Report -> bool)
    requires forall name, i :: 0 <= i < |check(name)| ==> ok(check(name)[i])
    ensures forall i :: 0 <= i < |ConcatMap(names, check)| ==> ok(ConcatMap(names, check)[i])
  {
    if names != [] {
      ConcatMapAll(names[1..], check, ok);
      var h, t := check(names[0]), ConcatMap(names[1..], check);
      assert ConcatMap(names, check) == h + t;
      forall i | 0 <= i < |h + t|
        ensures ok((h + t)[i])
      {
        if i < |h| {
          assert (h + t)[i] == h[i];
        } else {
          assert (h + t)[i] == t[i - |h|];
        }
      }
    }
  }
}
