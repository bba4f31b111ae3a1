/**
 * The checked-elements registry the extractor shares with the crawl
 * (the ExtractorManager it is constructed with): which fingerprints and
 * candidate keys are checked, and how many elements were added.
 */
module Registry {
  import opened Rules

  class ExtractorManager {
    var checked: set<string>
    var counter: nat

    constructor()
      ensures checked == {} && counter == 0
    {
      checked := {};
      counter := 0;
    }

    /** The registry as a value, for the specification functions. */
    function State(): RegState
      reads this
    {
      RegState(checked, counter)
    }

    method IsChecked(id: string) returns (b: bool)
      ensures b <==> id in checked
    {
      b := id in checked;
    }

    /** Marks `key` checked; true exactly when it was not checked before. */
    method MarkChecked(key: string) returns (added: bool)
      modifies this
      ensures added <==> key !in old(checked)
      ensures checked == old(checked) + {key} && counter == old(counter)
    {
      added := key !in checked;
      checked := checked + {key};
    }

    method IncreaseElementsCounter()
      modifies this
      ensures counter == old(counter) + 1 && checked == old(checked)
    {
      counter := counter + 1;
    }
  }
}
