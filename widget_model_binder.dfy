/**
  The custom widget's model binder: it turns the stored contract of a custom
  widget into the widget's model and back, copying the three widget fields.
  The configuration is opaque to the binder, so its type is a parameter.
*/
module WidgetModelBinder {

  /** The type tag of a custom widget's contract. */
  const CustomWidget: string := "customWidget"

  datatype WidgetContract<Config> = WidgetContract(
    contractType: string,     // the contract's `type`
    widgetName: string,
    widgetDisplayName: string,
    widgetConfig: Config)

  datatype WidgetModel<Config> = WidgetModel(widgetName: string, widgetDisplayName: string, widgetConfig: Config)

  /** `canHandleContract`: the binder takes exactly the contracts tagged as custom widgets. */
  predicate CanHandleContract<Config>(contract: WidgetContract<Config>)
  {
    contract.contractType == CustomWidget
  }

  /** `contractToModel`: a fresh model holding the contract's three widget fields. */
  function ContractToModel<Config>(contract: WidgetContract<Config>): (model: WidgetModel<Config>)
    ensures model.widgetName == contract.widgetName
    ensures model.widgetDisplayName == contract.widgetDisplayName
    ensures model.widgetConfig == contract.widgetConfig
  {
    WidgetModel(contract.widgetName, contract.widgetDisplayName, contract.widgetConfig)
  }

  /** `modelToContract`: a contract tagged as a custom widget, holding the model's fields. */
  function ModelToContract<Config>(model: WidgetModel<Config>): (contract: WidgetContract<Config>)
    ensures CanHandleContract(contract)
    ensures contract.widgetName == model.widgetName
    ensures contract.widgetDisplayName == model.widgetDisplayName
    ensures contract.widgetConfig == model.widgetConfig
  {
    WidgetContract(CustomWidget, model.widgetName, model.widgetDisplayName, model.widgetConfig)
  }

  /** Saving a model and loading it back gives the same model. */
  lemma ModelRoundTrip<Config>(model: WidgetModel<Config>)
    ensures ContractToModel(ModelToContract(model)) == model
  {
  }

  /** Loading a contract and saving it back gives the same contract exactly when the binder handles it. */
  lemma ContractRoundTrip<Config>(contract: WidgetContract<Config>)
    ensures ModelToContract(ContractToModel(contract)) == contract <==> CanHandleContract(contract)
  {
  }

  /** Two contracts the binder handles load to the same model only when they are the same contract. */
  lemma LoadInjective<Config>(a: WidgetContract<Config>, b: WidgetContract<Config>)
    requires CanHandleContract(a) && CanHandleContract(b)
    requires ContractToModel(a) == ContractToModel(b)
    ensures a == b
  {
    ContractRoundTrip(a);
    ContractRoundTrip(b);
  }
}
