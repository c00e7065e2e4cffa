/**
 * The background page of the extension: the single piece of state
 * `isDisabled` ("ask servers not to use PageSpeed"), the toolbar toggle, the
 * start-up load and the request-header listener. The host's storage and
 * toolbar are modelled as the last values the extension handed to them.
 */
module Background {
  import opened Wrappers
  import opened Headers
  import opened Appearance

  class Extension {
    /** The extension's state: true while servers are asked not to use PageSpeed. */
    var isDisabled: bool
    /** What the browser's local storage holds under the key "isDisabled" (None: the key is absent). */
    var stored: Option<bool>
    /** The icon paths last set on the toolbar button, by size (empty: none set yet). */
    var iconPaths: map<string, string>
    /** The title last set on the toolbar button (None: none set yet). */
    var title: Option<string>

    /** Storage and toolbar agree with the current state. */
    ghost predicate Reflects()
      reads this
    {
      stored == Some(isDisabled) && iconPaths == IconPaths(isDisabled) && title == Some(Title(isDisabled))
    }

    /** The background page as it is first evaluated: `isDisabled` starts out true, before storage is read. */
    constructor (persisted: Option<bool>)
      ensures isDisabled && stored == persisted
      ensures iconPaths == map[] && title == None
    {
      isDisabled := true;
      stored := persisted;
      iconPaths := map[];
      title := None;
    }

    /** Persists the state and updates the toolbar to show it. */
    method ApplyState()
      modifies this
      ensures isDisabled == old(isDisabled)
      ensures Reflects()
      ensures InitialDisabled(stored) == isDisabled
    {
      stored := Some(isDisabled);
      var slash := "";
      var t := AllowTitle;
      if isDisabled {
        slash := "-slash";
        t := DisallowTitle;
      }
      iconPaths := map["16" := "icons/logo-16" + slash + ".png", "32" := "icons/logo-32" + slash + ".png"];
      title := Some(t);
    }

    /** The toolbar button's click handler: flips the state and reflects it. */
    method Toggle()
      modifies this
      ensures isDisabled == !old(isDisabled)
      ensures Reflects()
    {
      isDisabled := !isDisabled;
      ApplyState();
    }

    /**
     * The start-up load: takes the stored value when the key is present,
     * `true` otherwise, then persists and reflects it.
     */
    method Load()
      modifies this
      ensures isDisabled == InitialDisabled(old(stored))
      ensures old(stored).Some? ==> stored == old(stored)
      ensures Reflects()
    {
      match stored {
        case Some(b) =>
          isDisabled := b;
        case None =>
          isDisabled := true;
      }
      ApplyState();
    }

    /**
     * The listener for outgoing requests. While disabled it scans the header
     * list for the first header whose lower-cased name is "pagespeed" and sets
     * its value to "off" in place; when there is none, a PageSpeed: off
     * header is added at the end. While not disabled the headers are returned
     * as they came.
     */
    method SetPageSpeedHeader(headers: array<Header>) returns (result: array<Header>)
      modifies headers
      ensures result[..] == Injected(old(headers[..]), isDisabled)
      ensures !isDisabled || FirstMatch(old(headers[..])).Some? ==> result == headers
      ensures isDisabled && FirstMatch(old(headers[..])).None? ==> fresh(result) && headers[..] == old(headers[..])
    {
      result := headers;
      if isDisabled {
        var found := false;
        var i := 0;
        while i < headers.Length
          invariant 0 <= i <= headers.Length
          invariant headers[..] == old(headers[..])
          invariant forall j :: 0 <= j < i ==> !IsPageSpeed(headers[j].name)
        {
          if IsPageSpeed(headers[i].name) {
            headers[i] := headers[i].(value := "off");
            found := true;
            break;
          }
          i := i + 1;
        }
        if !found {
          result := new Header[headers.Length + 1](
            j requires 0 <= j <= headers.Length reads headers =>
              if j < headers.Length then headers[j] else PageSpeedOff);
        }
      }
    }
  }

  /** Two clicks on the toolbar button bring the extension back to its state. */
  method ToggleTwice(e: Extension)
    modifies e
    ensures e.isDisabled == old(e.isDisabled)
    ensures e.Reflects()
  {
    e.Toggle();
    e.Toggle();
  }
}
